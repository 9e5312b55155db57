/**
 Realtime channels: who is in which channel under which session, the versioned state of
 a channel, and its sequence numbers; all of it goes when the last member does.
 */
module Realtime {
  import opened Options
  import opened Words

  const SEPARATOR := '\U{001F}'

  datatype Member = Member(user: string, session: Option<string>, metadata: string, joinedAtMs: nat, updatedAtMs: nat)

  /** A seat in a channel. */
  datatype Who = Who(channel: string, user: string, session: Option<string>)

  datatype Snapshot = Snapshot(version: u64, state: string, updatedAtMs: nat)

  /** `member_key`. */
  function MemberKey(user: string, session: Option<string>): string {
    match session
    case Some(id) => user + [SEPARATOR] + id
    case None => user
  }

  /** Neither user id is the other one with a separator and more after it. */
  predicate KeysApart(user: string, other: string) {
    !(user + [SEPARATOR] <= other) && !(other + [SEPARATOR] <= user)
  }

  /** Of one user, sessions always have different keys. */
  lemma OneUserKeys(user: string, session: Option<string>, other: Option<string>)
    ensures MemberKey(user, session) == MemberKey(user, other) <==> session == other
  {
    var a, b := MemberKey(user, session), MemberKey(user, other);
    if a == b && session.Some? && other.Some? {
      assert session.value == a[|user| + 1..] && other.value == b[|user| + 1..];
    }
  }

  lemma CommonKeyNests(user: string, session: Option<string>, other: string, otherSession: Option<string>)
    requires user != other && MemberKey(user, session) == MemberKey(other, otherSession)
    ensures !KeysApart(user, other)
  {
    var key := MemberKey(user, session);
    assert user == key[..|user|] && other == key[..|other|];
    if |user| < |other| {
      assert key[|user|] == SEPARATOR;
      assert user + [SEPARATOR] == key[..|user| + 1] == other[..|user| + 1];
    } else {
      assert key[|other|] == SEPARATOR;
      assert other + [SEPARATOR] == key[..|other| + 1] == user[..|other| + 1];
    }
  }

  lemma NestedUsersShareKey(user: string, other: string)
    requires user + [SEPARATOR] <= other
    ensures MemberKey(user, Some(other[|user| + 1..])) == MemberKey(other, None)
  {
  }

  /** Two users can share a member key exactly when one id continues the other after a separator. */
  lemma KeysNeverMeetIffApart(user: string, other: string)
    requires user != other
    ensures (forall s: Option<string>, t: Option<string> :: MemberKey(user, s) != MemberKey(other, t)) <==>
              KeysApart(user, other)
  {
    if user + [SEPARATOR] <= other {
      NestedUsersShareKey(user, other);
    } else if other + [SEPARATOR] <= user {
      NestedUsersShareKey(other, user);
    } else {
      forall s: Option<string>, t: Option<string>
        ensures MemberKey(user, s) != MemberKey(other, t)
      {
        if MemberKey(user, s) == MemberKey(other, t) {
          CommonKeyNests(user, s, other, t);
        }
      }
    }
  }

  lemma KeysCanCollide()
    ensures exists user: string, session: Option<string>, other: string, otherSession: Option<string> ::
              user != other && MemberKey(user, session) == MemberKey(other, otherSession)
  {
    NestedUsersShareKey("a", "a" + [SEPARATOR] + "b");
    assert MemberKey("a", Some(("a" + [SEPARATOR] + "b")[|"a"| + 1..])) == MemberKey("a" + [SEPARATOR] + "b", None);
  }

  // ---------------------------------------------------------------- what each call means

  datatype World = World(members: map<Who, Member>, states: map<string, Snapshot>, sequences: map<string, nat>)

  datatype Event = Join(who: Who, metadata: string, nowMs: nat)
                 | Leave(channel: string, user: string, session: Option<string>)
                 | LeaveSession(user: string, sessionId: string)
                 | UpdateMember(who: Who, metadata: string, nowMs: nat)
                 | UpdateUserMembers(channel: string, user: string, metadata: string, nowMs: nat)
                 | UpdateState(channel: string, state: string, expected: Option<u64>, nowMs: nat)
                 | NextSequence(channel: string)
                 | CleanupOrphans
                 | CleanupSessions(active: set<(string, string)>)

  /** The event takes the seat away. */
  predicate Removes(e: Event, who: Who) {
    match e
    case Leave(channel, user, session) =>
      who.channel == channel && who.user == user && (session.None? || who.session == session)
    case LeaveSession(user, sessionId) => who.user == user && who.session == Some(sessionId)
    case CleanupSessions(active) => who.session.Some? && (who.user, who.session.value) !in active
    case _ => false
  }

  /** The member in a seat that keeps it. */
  function MemberAfter(e: Event, who: Who, member: Member): Member {
    match e
    case UpdateMember(target, metadata, nowMs) =>
      if who == target then member.(metadata := metadata, updatedAtMs := nowMs) else member
    case UpdateUserMembers(channel, user, metadata, nowMs) =>
      if who.channel == channel && who.user == user then member.(metadata := metadata, updatedAtMs := nowMs) else member
    case _ => member
  }

  function MembersAfter(members: map<Who, Member>, e: Event): map<Who, Member> {
    match e
    case Join(who, metadata, nowMs) => members[who := Member(who.user, who.session, metadata, nowMs, nowMs)]
    case _ =>
      map who | who in members && !Removes(e, who) :: MemberAfter(e, who, members[who])
  }

  ghost predicate Live(members: map<Who, Member>, channel: string) {
    exists who :: who in members && who.channel == channel
  }

  /** The event ends the channel: its last member went, or it had none and orphans are collected. */
  ghost predicate ClearsTo(w: World, e: Event, after: map<Who, Member>, channel: string) {
    (Live(w.members, channel) && !Live(after, channel)) || (e.CleanupOrphans? && !Live(w.members, channel))
  }

  function VersionOf(w: World, channel: string): u64 {
    if channel in w.states then w.states[channel].version else 0
  }

  function SequenceOf(w: World, channel: string): nat {
    if channel in w.sequences then w.sequences[channel] else 0
  }

  /** The update is not refused. */
  predicate Accepts(w: World, e: Event) {
    e.UpdateState? && (e.expected.None? || e.expected.value == VersionOf(w, e.channel))
  }

  /** What becomes of everything when the event leaves the members `after`. */
  ghost function StepTo(w: World, e: Event, after: map<Who, Member>): World {
    var states := if Accepts(w, e)
                  then w.states[e.channel := Snapshot(SaturatingAdd(VersionOf(w, e.channel), 1), e.state, e.nowMs)]
                  else w.states;
    var sequences := if e.NextSequence? then w.sequences[e.channel := SequenceOf(w, e.channel) + 1] else w.sequences;
    World(after,
          map c | c in states && !ClearsTo(w, e, after, c) :: states[c],
          map c | c in sequences && !ClearsTo(w, e, after, c) :: sequences[c])
  }

  ghost function Step(w: World, e: Event): World {
    StepTo(w, e, MembersAfter(w.members, e))
  }

  // ---------------------------------------------------------------- what is done by key

  function KeyOf(who: Who): string {
    MemberKey(who.user, who.session)
  }

  predicate SameKey(a: Who, b: Who) {
    a.channel == b.channel && KeyOf(a) == KeyOf(b)
  }

  predicate RemovesByKey(e: Event, who: Who) {
    match e
    case Leave(channel, user, session) =>
      who.channel == channel && if session.Some? then KeyOf(who) == MemberKey(user, session) else who.user == user
    case LeaveSession(user, sessionId) => KeyOf(who) == MemberKey(user, Some(sessionId))
    case CleanupSessions(active) => Removes(e, who)
    case Join(target, _, _) => who != target && SameKey(who, target)
    case _ => false
  }

  function MemberAfterByKey(e: Event, who: Who, member: Member): Member {
    match e
    case UpdateMember(target, metadata, nowMs) =>
      if SameKey(who, target) then member.(metadata := metadata, updatedAtMs := nowMs) else member
    case _ => MemberAfter(e, who, member)
  }

  /** The members the program is left with: it tells seats of a channel apart by their keys alone. */
  function MembersAfterByKey(members: map<Who, Member>, e: Event): map<Who, Member> {
    var left := map who | who in members && !RemovesByKey(e, who) :: MemberAfterByKey(e, who, members[who]);
    match e
    case Join(who, metadata, nowMs) => left[who := Member(who.user, who.session, metadata, nowMs, nowMs)]
    case _ => left
  }

  ghost function StepByKey(w: World, e: Event): World {
    StepTo(w, e, MembersAfterByKey(w.members, e))
  }

  /** The event ends the channel as the program sees it. */
  ghost predicate Clears(w: World, e: Event, channel: string) {
    ClearsTo(w, e, MembersAfterByKey(w.members, e), channel)
  }

  /** The seat is treated as the event means. */
  ghost predicate Meant(members: map<Who, Member>, e: Event, who: Who)
    requires who in members
  {
    match e
    case Join(target, _, _) => SameKey(who, target) ==> who == target
    case Leave(channel, user, session) => session.Some? && SameKey(who, Who(channel, user, session)) ==>
      who == Who(channel, user, session)
    case LeaveSession(user, sessionId) => KeyOf(who) == MemberKey(user, Some(sessionId)) ==>
      who.user == user && who.session == Some(sessionId)
    case UpdateMember(target, metadata, nowMs) =>
      SameKey(who, target) ==> who == target || (members[who].metadata == metadata && members[who].updatedAtMs == nowMs)
    case _ => true
  }

  /** No member in the way has the key of another seat the event is about. */
  ghost predicate NoMixUp(members: map<Who, Member>, e: Event) {
    forall who {:trigger Meant(members, e, who)} :: who in members ==> Meant(members, e, who)
  }

  lemma MeantIffTreatedSo(members: map<Who, Member>, e: Event, who: Who)
    requires who in members
    ensures Meant(members, e, who) <==>
              (who in MembersAfterByKey(members, e) <==> who in MembersAfter(members, e)) &&
              (who in MembersAfter(members, e) ==> MembersAfterByKey(members, e)[who] == MembersAfter(members, e)[who])
  {
  }

  /** What the program does is what the call means exactly when there is no such member. */
  lemma StepByKeyIsStepIffNoMixUp(w: World, e: Event)
    ensures StepByKey(w, e) == Step(w, e) <==> NoMixUp(w.members, e)
  {
    var done, meant := MembersAfterByKey(w.members, e), MembersAfter(w.members, e);
    if NoMixUp(w.members, e) {
      forall who
        ensures who in done <==> who in meant
        ensures who in meant ==> done[who] == meant[who]
      {
        if who in w.members {
          assert Meant(w.members, e, who);
          MeantIffTreatedSo(w.members, e, who);
        }
      }
      assert done == meant;
    }
    if StepByKey(w, e) == Step(w, e) {
      assert done == meant;
      forall who | who in w.members
        ensures Meant(w.members, e, who)
      {
        MeantIffTreatedSo(w.members, e, who);
      }
    }
  }

  predicate NamesUser(e: Event, user: string) {
    match e
    case Join(who, _, _) => who.user == user
    case Leave(_, u, _) => u == user
    case LeaveSession(u, _) => u == user
    case UpdateMember(who, _, _) => who.user == user
    case _ => false
  }

  /** Users whose ids are apart are never mixed up. */
  lemma ApartUsersAreNotMixedUp(members: map<Who, Member>, e: Event)
    requires forall who, user :: who in members && NamesUser(e, user) ==> who.user == user || KeysApart(who.user, user)
    ensures NoMixUp(members, e)
  {
    forall who | who in members
      ensures Meant(members, e, who)
    {
      match e
      case Join(target, _, _) => assert NamesUser(e, target.user); KeysTellApart(who, target);
      case Leave(channel, user, session) => assert NamesUser(e, user); KeysTellApart(who, Who(channel, user, session));
      case LeaveSession(user, sessionId) =>
        assert NamesUser(e, user);
        KeysTellApart(who, Who(who.channel, user, Some(sessionId)));
      case UpdateMember(target, _, _) => assert NamesUser(e, target.user); KeysTellApart(who, target);
      case _ =>
    }
  }

  lemma KeysTellApart(a: Who, b: Who)
    requires a.user == b.user || KeysApart(a.user, b.user)
    ensures SameKey(a, b) <==> a == b
  {
    OneUserKeys(a.user, a.session, b.session);
    if a.user != b.user && KeyOf(a) == KeyOf(b) {
      CommonKeyNests(a.user, a.session, b.user, b.session);
    }
  }

  // ---------------------------------------------------------------- over whole runs

  ghost function Run(events: seq<Event>): World {
    if events == [] then World(map[], map[], map[]) else Step(Run(events[..|events| - 1]), events[|events| - 1])
  }

  /** What the program is left with after a run. */
  ghost function RunByKey(events: seq<Event>): World {
    if events == [] then World(map[], map[], map[])
    else StepByKey(RunByKey(events[..|events| - 1]), events[|events| - 1])
  }

  ghost predicate UsersApart(events: seq<Event>) {
    forall i, j, u, o ::
      0 <= i < |events| && 0 <= j < |events| && NamesUser(events[i], u) && NamesUser(events[j], o) ==>
      u == o || KeysApart(u, o)
  }

  /** Whatever a run of users whose ids are apart means is what the program does. */
  lemma {:induction false} RunByKeyIsRun(events: seq<Event>)
    requires UsersApart(events)
    ensures RunByKey(events) == Run(events)
    ensures forall who :: who in Run(events).members ==> exists i :: 0 <= i < |events| && NamesUser(events[i], who.user)
  {
    if events != [] {
      var n := |events| - 1;
      var before, last := events[..n], events[n];
      RunByKeyIsRun(before);
      forall who | who in Run(before).members
        ensures exists i :: 0 <= i < n && NamesUser(events[i], who.user)
      {
        var i :| 0 <= i < |before| && NamesUser(before[i], who.user);
        assert events[i] == before[i];
      }
      ApartUsersAreNotMixedUp(Run(before).members, last);
      StepByKeyIsStepIffNoMixUp(Run(before), last);
      forall who | who in Run(events).members
        ensures exists i :: 0 <= i < |events| && NamesUser(events[i], who.user)
      {
        if who !in Run(before).members {
          assert NamesUser(events[n], who.user);
        }
      }
    }
  }

  ghost predicate OneUser(events: seq<Event>, user: string) {
    forall i :: 0 <= i < |events| ==>
      match events[i]
      case Join(who, _, _) => who.user == user
      case Leave(_, u, _) => u == user
      case LeaveSession(u, _) => u == user
      case UpdateMember(who, _, _) => who.user == user
      case _ => true
  }

  /** The calls of one user do what they mean, whatever the sessions are called. */
  lemma OneUsersRunIsRun(events: seq<Event>, user: string)
    requires OneUser(events, user)
    ensures RunByKey(events) == Run(events)
  {
    RunByKeyIsRun(events);
  }

  ghost predicate Joins(events: seq<Event>, i: int, who: Who) {
    0 <= i < |events| && events[i].Join? && events[i].who == who
  }

  /** A seat is taken exactly when it was joined and not left, dropped or swept since. */
  lemma {:induction false} MemberIffJoinedAndNotRemoved(events: seq<Event>, who: Who)
    ensures who in Run(events).members <==>
              exists i :: Joins(events, i, who) && forall j :: i < j < |events| ==> !Removes(events[j], who)
  {
    if events != [] {
      var n := |events| - 1;
      var before, last := events[..n], events[n];
      MemberIffJoinedAndNotRemoved(before, who);
      if last.Join? && last.who == who {
        assert Joins(events, n, who);
      } else if who in Run(before).members && !Removes(last, who) {
        var i :| Joins(before, i, who) && forall j :: i < j < n ==> !Removes(before[j], who);
        assert Joins(events, i, who);
        forall j | i < j < |events|
          ensures !Removes(events[j], who)
        {
          assert j < n ==> events[j] == before[j];
        }
      }
      if i :| Joins(events, i, who) && forall j :: i < j < |events| ==> !Removes(events[j], who) {
        if i < n {
          assert Joins(before, i, who);
          forall j | i < j < n
            ensures !Removes(before[j], who)
          {
            assert events[j] == before[j];
          }
        }
      }
    }
  }

  /** In the program's own terms, for every run: nor was another seat joined under its key. */
  lemma {:induction false} MemberByKeyIffJoinedAndNotRemoved(events: seq<Event>, who: Who)
    ensures who in RunByKey(events).members <==>
              exists i :: Joins(events, i, who) && forall j :: i < j < |events| ==> !RemovesByKey(events[j], who)
  {
    if events != [] {
      var n := |events| - 1;
      var before, last := events[..n], events[n];
      MemberByKeyIffJoinedAndNotRemoved(before, who);
      if last.Join? && last.who == who {
        assert Joins(events, n, who);
      } else if who in RunByKey(before).members && !RemovesByKey(last, who) {
        var i :| Joins(before, i, who) && forall j :: i < j < n ==> !RemovesByKey(before[j], who);
        assert Joins(events, i, who);
        forall j | i < j < |events|
          ensures !RemovesByKey(events[j], who)
        {
          assert j < n ==> events[j] == before[j];
        }
      }
      if i :| Joins(events, i, who) && forall j :: i < j < |events| ==> !RemovesByKey(events[j], who) {
        if i < n {
          assert Joins(before, i, who);
          forall j | i < j < n
            ensures !RemovesByKey(before[j], who)
          {
            assert events[j] == before[j];
          }
        }
      }
    }
  }

  /** The event gives the member in a seat, told by its key, new metadata. */
  predicate Labels(e: Event, who: Who) {
    (e.Join? && e.who == who) ||
    (e.UpdateMember? && e.who.channel == who.channel &&
     MemberKey(e.who.user, e.who.session) == MemberKey(who.user, who.session)) ||
    (e.UpdateUserMembers? && e.channel == who.channel && e.user == who.user)
  }

  ghost predicate LastLabel(events: seq<Event>, i: int, who: Who) {
    0 <= i < |events| && Labels(events[i], who) && forall j :: i < j < |events| ==> !Labels(events[j], who)
  }

  ghost predicate LastJoin(events: seq<Event>, i: int, who: Who) {
    Joins(events, i, who) && forall j :: i < j ==> !Joins(events, j, who)
  }

  /** A member shows the metadata and time of the last call that labelled it, and the time it last joined. */
  ghost predicate Shows(events: seq<Event>, who: Who, member: Member) {
    member.user == who.user && member.session == who.session &&
    (exists i :: LastLabel(events, i, who) && member.metadata == events[i].metadata &&
                 member.updatedAtMs == events[i].nowMs) &&
    exists i :: LastJoin(events, i, who) && member.joinedAtMs == events[i].nowMs
  }

  /** Over any run. */
  lemma {:induction false} MemberShowsLastLabel(events: seq<Event>, who: Who)
    requires who in RunByKey(events).members
    ensures Shows(events, who, RunByKey(events).members[who])
  {
    var n := |events| - 1;
    var before, last := events[..n], events[n];
    assert events == before + [last];
    var member := RunByKey(events).members[who];
    if last.Join? && last.who == who {
      assert LastLabel(events, n, who) && LastJoin(events, n, who);
    } else {
      assert who in RunByKey(before).members;
      MemberShowsLastLabel(before, who);
      ShowsOn(before, last, who, RunByKey(before).members[who], member);
    }
  }

  lemma ShowsOn(events: seq<Event>, last: Event, who: Who, before: Member, after: Member)
    requires Shows(events, who, before) && !(last.Join? && last.who == who)
    requires after ==
             if Labels(last, who) then before.(metadata := last.metadata, updatedAtMs := last.nowMs) else before
    ensures Shows(events + [last], who, after)
  {
    var all := events + [last];
    if Labels(last, who) {
      assert LastLabel(all, |events|, who);
    } else {
      var i :| LastLabel(events, i, who) && before.metadata == events[i].metadata &&
               before.updatedAtMs == events[i].nowMs;
      assert LastLabel(all, i, who);
    }
    var j :| LastJoin(events, j, who) && before.joinedAtMs == events[j].nowMs;
    forall k | j < k
      ensures !Joins(all, k, who)
    {
      assert k < |events| ==> all[k] == events[k] && !Joins(events, k, who);
    }
    assert LastJoin(all, j, who);
  }

  /** What is kept for a channel goes when its last member does, or when orphans are collected and nobody is in it. */
  lemma StateGoesWithLastMember(w: World, e: Event, channel: string)
    requires Live(w.members, channel) || e == CleanupOrphans
    requires !Live(StepByKey(w, e).members, channel)
    ensures channel !in StepByKey(w, e).states && channel !in StepByKey(w, e).sequences
  {
  }

  /** Until then only calls about it change it. */
  lemma StateStaysWithMembers(w: World, e: Event, channel: string)
    requires Live(StepByKey(w, e).members, channel) || (!Live(w.members, channel) && e != CleanupOrphans)
    ensures !(e.UpdateState? && e.channel == channel) ==>
              (channel in StepByKey(w, e).states <==> channel in w.states) &&
              (channel in w.states ==> StepByKey(w, e).states[channel] == w.states[channel])
    ensures e != NextSequence(channel) ==>
              (channel in StepByKey(w, e).sequences <==> channel in w.sequences) &&
              (channel in w.sequences ==> StepByKey(w, e).sequences[channel] == w.sequences[channel])
  {
  }

  /** The event at `i` ends the channel. */
  ghost predicate ClearsAt(events: seq<Event>, i: int, channel: string) {
    0 <= i < |events| && Clears(RunByKey(events[..i]), events[i], channel)
  }

  ghost predicate AcceptedAt(events: seq<Event>, i: int, channel: string) {
    0 <= i < |events| && events[i].UpdateState? && events[i].channel == channel &&
    Accepts(RunByKey(events[..i]), events[i])
  }

  /** The updates of a channel accepted since it was last cleared. */
  ghost function AcceptedSince(events: seq<Event>, channel: string): set<int> {
    set i | 0 <= i < |events| && AcceptedAt(events, i, channel) && !exists k :: i < k && ClearsAt(events, k, channel)
  }

  lemma RunPrefix(events: seq<Event>, i: nat)
    requires i < |events|
    ensures RunByKey(events[..i + 1]) == StepByKey(RunByKey(events[..i]), events[i])
  {
    assert events[..i + 1][..i] == events[..i];
  }

  lemma PrefixAgrees(events: seq<Event>, n: nat, i: int, channel: string)
    requires n <= |events| && i < n
    ensures ClearsAt(events[..n], i, channel) <==> ClearsAt(events, i, channel)
    ensures AcceptedAt(events[..n], i, channel) <==> AcceptedAt(events, i, channel)
  {
    if 0 <= i {
      assert events[..n][..i] == events[..i];
    }
  }

  /** A channel's version is the number of updates accepted since its state was last removed, up to the 64-bit limit. */
  lemma {:induction false} VersionCountsAcceptedUpdates(events: seq<Event>, channel: string)
    ensures VersionOf(RunByKey(events), channel) ==
            if |AcceptedSince(events, channel)| < U64_MAX then |AcceptedSince(events, channel)| else U64_MAX
  {
    if events == [] {
      assert AcceptedSince(events, channel) == {};
    } else {
      var n := |events| - 1;
      VersionCountsAcceptedUpdates(events[..n], channel);
      AcceptedSinceOneMore(events, channel);
      assert events[..n + 1] == events;
    }
  }

  lemma AcceptedSinceOneMore(events: seq<Event>, channel: string)
    requires events != []
    ensures var n := |events| - 1;
            AcceptedSince(events, channel) ==
            if ClearsAt(events, n, channel) then {}
            else if AcceptedAt(events, n, channel) then AcceptedSince(events[..n], channel) + {n}
            else AcceptedSince(events[..n], channel)
    ensures ClearsAt(events, |events| - 1, channel) ==> !AcceptedAt(events, |events| - 1, channel)
  {
    var n := |events| - 1;
    var before := events[..n];
    forall i | 0 <= i < n
      ensures i in AcceptedSince(events, channel) <==>
                i in AcceptedSince(before, channel) && !ClearsAt(events, n, channel)
    {
      EarlierAcceptedSince(events, i, channel);
    }
    if AcceptedAt(events, n, channel) {
      UpdateKeepsMembers(RunByKey(before), events[n]);
    }
  }

  lemma EarlierAcceptedSince(events: seq<Event>, i: nat, channel: string)
    requires i < |events| - 1
    ensures var n := |events| - 1;
            i in AcceptedSince(events, channel) <==>
              i in AcceptedSince(events[..n], channel) && !ClearsAt(events, n, channel)
  {
    var n := |events| - 1;
    PrefixAgrees(events, n, i, channel);
    forall k | i < k < n
      ensures ClearsAt(events[..n], k, channel) <==> ClearsAt(events, k, channel)
    {
      PrefixAgrees(events, n, k, channel);
    }
  }

  lemma UpdateKeepsMembers(w: World, e: Event)
    requires e.UpdateState? || e.NextSequence?
    ensures MembersAfter(w.members, e) == w.members == MembersAfterByKey(w.members, e)
    ensures StepByKey(w, e) == Step(w, e) && forall c :: !Clears(w, e, c)
  {
  }

  ghost predicate LastAccepted(events: seq<Event>, i: int, channel: string) {
    AcceptedAt(events, i, channel) &&
    forall j :: i < j ==> !AcceptedAt(events, j, channel) && !ClearsAt(events, j, channel)
  }

  /** A channel's state is that of the last update accepted, unless the channel ended since. */
  lemma {:induction false} StateIsLastAccepted(events: seq<Event>, channel: string)
    requires channel in RunByKey(events).states
    ensures exists i :: LastAccepted(events, i, channel) &&
                        RunByKey(events).states[channel].state == events[i].state &&
                        RunByKey(events).states[channel].updatedAtMs == events[i].nowMs
  {
    var n := |events| - 1;
    var before := events[..n];
    if AcceptedAt(events, n, channel) {
      UpdateKeepsMembers(RunByKey(before), events[n]);
      assert LastAccepted(events, n, channel);
    } else {
      assert channel in RunByKey(before).states && !ClearsAt(events, n, channel);
      StateIsLastAccepted(before, channel);
      var i :| LastAccepted(before, i, channel) &&
               RunByKey(before).states[channel].state == before[i].state &&
               RunByKey(before).states[channel].updatedAtMs == before[i].nowMs;
      forall j | i <= j < n
        ensures AcceptedAt(events, j, channel) <==> AcceptedAt(before, j, channel)
        ensures ClearsAt(events, j, channel) <==> ClearsAt(before, j, channel)
      {
        PrefixAgrees(events, n, j, channel);
      }
      assert LastAccepted(events, i, channel);
    }
  }

  /** An update is accepted exactly when it expects no version, or the number of updates accepted since then. */
  lemma AcceptedIffVersionExpected(events: seq<Event>, i: nat, channel: string)
    requires i < |events| && events[i].UpdateState? && events[i].channel == channel
    ensures AcceptedAt(events, i, channel) <==>
            var count := |AcceptedSince(events[..i], channel)|;
            events[i].expected.None? || events[i].expected.value == if count < U64_MAX then count else U64_MAX
  {
    VersionCountsAcceptedUpdates(events[..i], channel);
  }

  /**
   Compare-and-set: of two updates that expect the same version, the second is refused unless the channel ended in
   between.
   */
  lemma NoLostUpdate(events: seq<Event>, i: nat, j: nat, channel: string, version: u64)
    requires i < j < |events| && AcceptedAt(events, i, channel) && AcceptedAt(events, j, channel)
    requires events[i].expected == Some(version) && events[j].expected == Some(version) && version < U64_MAX
    ensures exists k :: i < k < j && ClearsAt(events, k, channel)
  {
    if forall k :: i < k < j ==> !ClearsAt(events, k, channel) {
      RunPrefix(events, i);
      UpdateKeepsMembers(RunByKey(events[..i]), events[i]);
      VersionNeverFalls(events, i + 1, j, channel);
    }
  }

  lemma {:induction false} VersionNeverFalls(events: seq<Event>, i: nat, j: nat, channel: string)
    requires i <= j <= |events| && forall k :: i <= k < j ==> !ClearsAt(events, k, channel)
    ensures VersionOf(RunByKey(events[..i]), channel) <= VersionOf(RunByKey(events[..j]), channel)
    ensures SequenceOf(RunByKey(events[..i]), channel) <= SequenceOf(RunByKey(events[..j]), channel)
    decreases j - i
  {
    if i < j {
      RunPrefix(events, j - 1);
      VersionNeverFalls(events, i, j - 1, channel);
      assert !ClearsAt(events, j - 1, channel);
    }
  }

  /** Sequence numbers handed out for a channel strictly increase until it ends. */
  lemma SequencesIncrease(events: seq<Event>, i: nat, j: nat, channel: string)
    requires i < j < |events| && events[i] == NextSequence(channel) && events[j] == NextSequence(channel)
    requires forall k :: i < k < j ==> !ClearsAt(events, k, channel)
    ensures SequenceOf(RunByKey(events[..i + 1]), channel) < SequenceOf(RunByKey(events[..j + 1]), channel)
  {
    VersionNeverFalls(events, i + 1, j, channel);
    RunPrefix(events, j);
    UpdateKeepsMembers(RunByKey(events[..j]), events[j]);
  }

  /** A refused update changes nothing. */
  lemma RefusedUpdateChangesNothing(w: World, e: Event)
    requires e.UpdateState? && !Accepts(w, e)
    ensures Step(w, e) == w == StepByKey(w, e)
  {
    UpdateKeepsMembers(w, e);
  }

  // ---------------------------------------------------------------- the maps behind it

  type Seats = map<string, Member>

  type Channels = map<string, Seats>

  function SeatOf(channel: string, member: Member): Who {
    Who(channel, member.user, member.session)
  }

  /** The member under a key is filed under its own key and listed in its seat. */
  ghost predicate Filed(channels: Channels, members: map<Who, Member>, channel: string, key: string)
    requires channel in channels && key in channels[channel]
  {
    var member := channels[channel][key];
    key == MemberKey(member.user, member.session) &&
    SeatOf(channel, member) in members && members[SeatOf(channel, member)] == member
  }

  ghost predicate Found(channels: Channels, members: map<Who, Member>, who: Who)
    requires who in members
  {
    who.channel in channels && KeyOf(who) in channels[who.channel] &&
    channels[who.channel][KeyOf(who)] == members[who] &&
    members[who].user == who.user && members[who].session == who.session
  }

  ghost predicate Mirrors(channels: Channels, members: map<Who, Member>) {
    (forall c, k {:trigger Filed(channels, members, c, k)} :: c in channels && k in channels[c] ==>
       Filed(channels, members, c, k)) &&
    (forall who {:trigger Found(channels, members, who)} :: who in members ==> Found(channels, members, who))
  }

  ghost predicate NoEmptyChannel(channels: Channels) {
    forall c :: c in channels ==> channels[c] != map[]
  }

  function SeatsIn(channels: Channels, channel: string): Seats {
    if channel in channels then channels[channel] else map[]
  }

  /** A channel is kept exactly while it is live. */
  lemma KeptIffLive(channels: Channels, members: map<Who, Member>, channel: string)
    requires Mirrors(channels, members) && NoEmptyChannel(channels)
    ensures channel in channels <==> Live(members, channel)
  {
    if channel in channels {
      assert channels[channel].Keys != {};
      var key :| key in channels[channel];
      assert Filed(channels, members, channel, key);
    }
    if who :| who in members && who.channel == channel {
      assert Found(channels, members, who);
    }
  }

  /** The members but for whoever else has the key of the seat. */
  function Displaced(members: map<Who, Member>, who: Who): map<Who, Member> {
    map w | w in members && !(w != who && SameKey(w, who)) :: members[w]
  }

  /** A seat is taken, or its member replaced. */
  lemma PutMember(channels: Channels, members: map<Who, Member>, who: Who, member: Member)
    requires Mirrors(channels, members) && member.user == who.user && member.session == who.session
    ensures Mirrors(channels[who.channel := SeatsIn(channels, who.channel)[KeyOf(who) := member]],
                    Displaced(members, who)[who := member])
  {
    var channels' := channels[who.channel := SeatsIn(channels, who.channel)[KeyOf(who) := member]];
    var members' := Displaced(members, who)[who := member];
    forall c, k | c in channels' && k in channels'[c]
      ensures Filed(channels', members', c, k)
    {
      if c != who.channel || k != KeyOf(who) {
        assert Filed(channels, members, c, k);
      }
    }
    forall w | w in members'
      ensures Found(channels', members', w)
    {
      if w != who {
        assert Found(channels, members, w);
      }
    }
  }

  /** Of the seats present, no two have one key. */
  lemma OneSeatPerKey(channels: Channels, members: map<Who, Member>, a: Who, b: Who)
    requires Mirrors(channels, members) && a in members && b in members && SameKey(a, b)
    ensures a == b
  {
    assert Found(channels, members, a) && Found(channels, members, b);
  }

  /** Members leave, and nothing else happens. */
  predicate Departs(e: Event) {
    e.Leave? || e.LeaveSession? || e.CleanupSessions?
  }

  /** `after` is `before` without the members in seats that are gone. */
  ghost predicate Dropped(before: Channels, after: Channels, e: Event) {
    forall c, k {:trigger StaysAt(before, after, e, c, k)} :: StaysAt(before, after, e, c, k)
  }

  ghost predicate StaysAt(before: Channels, after: Channels, e: Event, c: string, k: string) {
    (k in SeatsIn(after, c) <==> k in SeatsIn(before, c) && !RemovesByKey(e, SeatOf(c, SeatsIn(before, c)[k]))) &&
    (k in SeatsIn(after, c) ==> SeatsIn(after, c)[k] == SeatsIn(before, c)[k])
  }

  lemma DropMembers(before: Channels, after: Channels, members: map<Who, Member>, e: Event)
    requires Mirrors(before, members) && Departs(e) && Dropped(before, after, e)
    ensures Mirrors(after, MembersAfterByKey(members, e))
  {
    var left := MembersAfterByKey(members, e);
    forall c, k | c in after && k in after[c]
      ensures Filed(after, left, c, k)
    {
      assert StaysAt(before, after, e, c, k);
      assert Filed(before, members, c, k);
    }
    forall who | who in left
      ensures Found(after, left, who)
    {
      assert Found(before, members, who);
      assert StaysAt(before, after, e, who.channel, KeyOf(who));
    }
  }

  // ---------------------------------------------------------------- what a step clears

  lemma NothingCleared(w: World, e: Event)
    requires !e.CleanupOrphans? && !e.UpdateState? && !e.NextSequence?
    requires forall c :: Live(w.members, c) ==> Live(MembersAfterByKey(w.members, e), c)
    ensures StepByKey(w, e) == World(MembersAfterByKey(w.members, e), w.states, w.sequences)
  {
  }

  /** Members leave: the channels that are no longer kept are the ones whose state and sequence go. */
  lemma ClearedWithChannels(w: World, e: Event, before: Channels, after: Channels)
    requires Departs(e) && Mirrors(before, w.members) && NoEmptyChannel(before)
    requires Mirrors(after, MembersAfterByKey(w.members, e)) && NoEmptyChannel(after)
    ensures var cleared := before.Keys - after.Keys;
            StepByKey(w, e) == World(MembersAfterByKey(w.members, e), w.states - cleared, w.sequences - cleared)
  {
    forall c
      ensures ClearsTo(w, e, MembersAfterByKey(w.members, e), c) <==> c in before.Keys - after.Keys
    {
      KeptIffLive(before, w.members, c);
      KeptIffLive(after, MembersAfterByKey(w.members, e), c);
    }
  }

  // ---------------------------------------------------------------- sweeping all channels

  function StaleKeys(seats: Seats, active: set<(string, string)>): set<string> {
    set k | k in seats && seats[k].session.Some? && (seats[k].user, seats[k].session.value) !in active
  }

  lemma StaleSeatsLeave(seats: Seats, c: string, active: set<(string, string)>)
    ensures seats - StaleKeys(seats, active) == SeatsLeft(seats, c, CleanupSessions(active))
  {
  }

  function SeatsLeft(seats: Seats, channel: string, e: Event): Seats {
    map k | k in seats && !RemovesByKey(e, SeatOf(channel, seats[k])) :: seats[k]
  }

  /** A channel before or after the sweep came by; `empty` are the channels it left without members. */
  ghost predicate SweptAt(before: Channels, now: Channels, rest: set<string>, empty: set<string>, e: Event, c: string) {
    c in before && c in now && now[c] == (if c in rest then before[c] else SeatsLeft(before[c], c, e)) &&
    (c in empty <==> c !in rest && now[c] == map[])
  }

  ghost predicate Swept(before: Channels, now: Channels, rest: set<string>, empty: set<string>, e: Event) {
    now.Keys == before.Keys && rest <= before.Keys && empty <= before.Keys &&
    forall c {:trigger SweptAt(before, now, rest, empty, e, c)} :: c in before ==>
      SweptAt(before, now, rest, empty, e, c)
  }

  lemma SweepStarts(before: Channels, e: Event)
    ensures Swept(before, before, before.Keys, {}, e)
  {
  }

  lemma SweepOneMore(before: Channels, now: Channels, rest: set<string>, empty: set<string>, e: Event, c: string)
    requires Swept(before, now, rest, empty, e) && c in rest
    ensures c in now && now[c] == before[c]
    ensures var left := SeatsLeft(before[c], c, e);
            Swept(before, now[c := left], rest - {c}, if left == map[] then empty + {c} else empty, e)
  {
    assert SweptAt(before, now, rest, empty, e, c);
    var left := SeatsLeft(before[c], c, e);
    var now', empty' := now[c := left], if left == map[] then empty + {c} else empty;
    forall d | d in before
      ensures SweptAt(before, now', rest - {c}, empty', e, d)
    {
      assert SweptAt(before, now, rest, empty, e, d);
    }
  }

  /** A channel nobody leaves need not be touched. */
  lemma SweepSkips(before: Channels, now: Channels, rest: set<string>, empty: set<string>, e: Event, c: string)
    requires NoEmptyChannel(before) && Swept(before, now, rest, empty, e) && c in rest
    requires SeatsLeft(before[c], c, e) == before[c]
    ensures Swept(before, now, rest - {c}, empty, e)
  {
    SweepOneMore(before, now, rest, empty, e, c);
    assert now[c := before[c]] == now;
  }

  lemma SweepEnds(before: Channels, now: Channels, empty: set<string>, e: Event)
    requires NoEmptyChannel(before) && Swept(before, now, {}, empty, e)
    ensures Dropped(before, now - empty, e) && NoEmptyChannel(now - empty)
    ensures before.Keys - (now - empty).Keys == empty
  {
    var after := now - empty;
    forall c, k
      ensures StaysAt(before, after, e, c, k)
    {
      if c in before {
        assert SweptAt(before, now, {}, empty, e, c);
      }
    }
    forall c | c in after
      ensures after[c] != map[]
    {
      assert SweptAt(before, now, {}, empty, e, c);
    }
  }

  method RemoveSession(channels: Channels, ghost members: map<Who, Member>, user: string, sessionId: string)
    returns (now: Channels, empty: set<string>)
    requires Mirrors(channels, members) && NoEmptyChannel(channels)
    ensures Swept(channels, now, {}, empty, Event.LeaveSession(user, sessionId))
  {
    ghost var e := Event.LeaveSession(user, sessionId);
    var key := MemberKey(user, Some(sessionId));
    now, empty := channels, {};
    var rest := channels.Keys;
    SweepStarts(channels, e);
    while rest != {}
      invariant Swept(channels, now, rest, empty, e)
      decreases |rest|
    {
      var c :| c in rest;
      SweepOneMore(channels, now, rest, empty, e, c);
      OneSeatLeaves(channels, members, c, user, sessionId);
      var seats := now[c];
      if key in seats {
        now := now[c := seats - {key}];
        if seats - {key} == map[] {
          empty := empty + {c};
        }
      } else {
        assert seats - {key} == seats;
        SweepSkips(channels, now, rest, empty, e, c);
      }
      rest := rest - {c};
    }
  }

  method RemoveStale(channels: Channels, active: set<(string, string)>) returns (now: Channels, empty: set<string>)
    requires NoEmptyChannel(channels)
    ensures Swept(channels, now, {}, empty, CleanupSessions(active))
  {
    ghost var e := CleanupSessions(active);
    now, empty := channels, {};
    var rest := channels.Keys;
    SweepStarts(channels, e);
    while rest != {}
      invariant Swept(channels, now, rest, empty, e)
      decreases |rest|
    {
      var c :| c in rest;
      SweepOneMore(channels, now, rest, empty, e, c);
      var seats := now[c];
      var stale := StaleKeys(seats, active);
      StaleSeatsLeave(seats, c, active);
      if stale == {} {
        SweepSkips(channels, now, rest, empty, e, c);
      } else {
        now := now[c := seats - stale];
        if seats - stale == map[] {
          empty := empty + {c};
        }
      }
      rest := rest - {c};
    }
  }

  /** Every seat of the user gets the new metadata. */
  method Relabel(before: Seats, channel: string, user: string, metadata: string, nowMs: nat)
    returns (seats: Seats, updated: bool)
    ensures seats.Keys == before.Keys
    ensures forall k :: k in before ==>
              seats[k] ==
              MemberAfter(Event.UpdateUserMembers(channel, user, metadata, nowMs), SeatOf(channel, before[k]),
                          before[k])
    ensures updated <==> exists k :: k in before && before[k].user == user
  {
    ghost var e := Event.UpdateUserMembers(channel, user, metadata, nowMs);
    seats, updated := before, false;
    var rest := seats.Keys;
    while rest != {}
      invariant rest <= before.Keys == seats.Keys
      invariant forall k :: k in before ==>
                  seats[k] == if k in rest then before[k] else MemberAfter(e, SeatOf(channel, before[k]), before[k])
      invariant updated <==> exists k :: k in before && k !in rest && before[k].user == user
      decreases |rest|
    {
      var k :| k in rest;
      if seats[k].user == user {
        seats := seats[k := seats[k].(metadata := metadata, updatedAtMs := nowMs)];
        updated := true;
      }
      rest := rest - {k};
    }
  }

  // ---------------------------------------------------------------- the registry

  ghost function MembersIn(members: map<Who, Member>, channel: string): set<Member> {
    set who | who in members && who.channel == channel :: members[who]
  }

  lemma SeatsHoldMembers(channels: Channels, members: map<Who, Member>, channel: string)
    requires Mirrors(channels, members)
    ensures SeatsIn(channels, channel).Values == MembersIn(members, channel)
  {
    var seats := SeatsIn(channels, channel);
    forall m
      ensures m in seats.Values <==> m in MembersIn(members, channel)
    {
      if m in seats.Values {
        var key :| key in seats && seats[key] == m;
        assert Filed(channels, members, channel, key);
      }
      if m in MembersIn(members, channel) {
        var who :| who in members && who.channel == channel && members[who] == m;
        assert Found(channels, members, who);
        assert KeyOf(who) in seats;
      }
    }
  }

  class RealtimeChannels {
    var channels: Channels
    var sequences: map<string, nat>
    var states: map<string, Snapshot>
    ghost var members: map<Who, Member>

    ghost predicate Valid()
      reads this
    {
      Mirrors(channels, members) && NoEmptyChannel(channels)
    }

    ghost function Current(): World
      reads this
    {
      World(members, states, sequences)
    }

    constructor ()
      ensures Valid() && Current() == RunByKey([])
    {
      channels, sequences, states, members := map[], map[], map[], map[];
    }

    method Join(who: Who, metadata: string) returns (nowMs: nat, previous: set<Member>, all: set<Member>)
      requires Valid()
      modifies this
      ensures Valid() && Current() == StepByKey(old(Current()), Event.Join(who, metadata, nowMs))
      ensures Current() == Step(old(Current()), Event.Join(who, metadata, nowMs)) <==>
                forall w :: w in old(members) && SameKey(w, who) ==> w == who
      ensures forall w :: w in members <==>
                w == who || (w in old(members) && !(w.channel == who.channel &&
                                                    MemberKey(w.user, w.session) == MemberKey(who.user, who.session)))
      ensures previous == MembersIn(old(members), who.channel) && all == MembersIn(members, who.channel)
    {
      nowMs := *;
      ghost var e := Event.Join(who, metadata, nowMs);
      var seats := SeatsIn(channels, who.channel);
      SeatsHoldMembers(channels, members, who.channel);
      previous := seats.Values;
      var member := Member(who.user, who.session, metadata, nowMs, nowMs);
      PutMember(channels, members, who, member);
      JoinStep(Current(), e);
      assert KeyOf(who) in seats[KeyOf(who) := member];
      channels := channels[who.channel := seats[KeyOf(who) := member]];
      members := MembersAfterByKey(members, e);
      SeatsHoldMembers(channels, members, who.channel);
      all := channels[who.channel].Values;
    }

    /** The seats leave the channel's entry, and an entry left without seats goes. */
    method RemoveSeats(channel: string, user: string, session: Option<string>) returns (becameEmpty: bool)
      modifies this`channels
      ensures channels == ChannelsLeft(old(channels), channel, user, session)
      ensures becameEmpty <==> channel in old(channels) && channel !in channels
    {
      becameEmpty := false;
      if channel in channels {
        var seats := channels[channel] - KeysLeaving(channels[channel], user, session);
        if seats == map[] {
          channels := channels - {channel};
          becameEmpty := true;
        } else {
          channels := channels[channel := seats];
        }
      }
    }

    /** Without a session all of the user's seats in the channel go. */
    method Leave(channel: string, user: string, session: Option<string>)
      returns (removed: set<Member>, remaining: set<Member>)
      requires Valid()
      modifies this
      ensures Valid() && Current() == StepByKey(old(Current()), Event.Leave(channel, user, session))
      ensures Current() == Step(old(Current()), Event.Leave(channel, user, session)) <==>
                NoMixUp(old(members), Event.Leave(channel, user, session))
      ensures forall w :: w in members <==>
                w in old(members) && !(w.channel == channel &&
                  if session.None? then w.user == user else MemberKey(w.user, w.session) == MemberKey(user, session))
      ensures removed == MembersIn(old(members), channel) - MembersIn(members, channel)
      ensures remaining == MembersIn(members, channel)
    {
      ghost var e := Event.Leave(channel, user, session);
      ghost var before := channels;
      SeatsHoldMembers(channels, members, channel);
      var all := SeatsIn(channels, channel).Values;
      var becameEmpty := RemoveSeats(channel, user, session);
      LeaveStep(Current(), before, channels, channel, user, session);
      StepByKeyIsStepIffNoMixUp(Current(), e);
      members := MembersAfterByKey(members, e);
      if becameEmpty {
        states := states - {channel};
        sequences := sequences - {channel};
      }
      SeatsHoldMembers(channels, members, channel);
      remaining := SeatsIn(channels, channel).Values;
      removed := all - remaining;
    }

    method LeaveSession(user: string, sessionId: string)
      requires Valid()
      modifies this
      ensures Valid() && Current() == StepByKey(old(Current()), Event.LeaveSession(user, sessionId))
      ensures forall w :: w in members <==>
                w in old(members) && MemberKey(w.user, w.session) != MemberKey(user, Some(sessionId))
      ensures Current() == Step(old(Current()), Event.LeaveSession(user, sessionId)) <==>
                forall w :: w in old(members) && KeyOf(w) == MemberKey(user, Some(sessionId)) ==>
                  w.user == user && w.session == Some(sessionId)
    {
      ghost var before := channels;
      var now, empty := RemoveSession(channels, members, user, sessionId);
      channels := now;
      StepByKeyIsStepIffNoMixUp(Current(), Event.LeaveSession(user, sessionId));
      SessionMixUp(members, user, sessionId);
      FinishSweep(before, empty, Event.LeaveSession(user, sessionId));
    }

    method CleanupInactiveSessionMembers(active: set<(string, string)>)
      requires Valid()
      modifies this
      ensures Valid() && Current() == StepByKey(old(Current()), CleanupSessions(active))
      ensures forall who :: who in members <==>
                who in old(members) && (who.session.None? || (who.user, who.session.value) in active)
    {
      ghost var before := channels;
      var now, empty := RemoveStale(channels, active);
      channels := now;
      FinishSweep(before, empty, CleanupSessions(active));
    }

    /** Channels left without members go, and what was kept for them. */
    method FinishSweep(ghost before: Channels, empty: set<string>, ghost e: Event)
      requires Mirrors(before, members) && NoEmptyChannel(before)
      requires Departs(e)
      requires Swept(before, channels, {}, empty, e)
      modifies this
      ensures Valid() && Current() == StepByKey(old(Current()), e)
    {
      SweepEnds(before, channels, empty, e);
      channels := channels - empty;
      DropMembers(before, channels, members, e);
      ClearedWithChannels(Current(), e, before, channels);
      members := MembersAfterByKey(members, e);
      states := states - empty;
      sequences := sequences - empty;
    }

    /** Whoever has the seat's key is relabelled. */
    method UpdateMember(who: Who, metadata: string) returns (nowMs: nat, found: bool)
      requires Valid()
      modifies this
      ensures Valid() && Current() == StepByKey(old(Current()), Event.UpdateMember(who, metadata, nowMs))
      ensures Current() == Step(old(Current()), Event.UpdateMember(who, metadata, nowMs)) <==>
                NoMixUp(old(members), Event.UpdateMember(who, metadata, nowMs))
      ensures found <==> exists w :: w in old(members) && SameKey(w, who)
    {
      nowMs := *;
      ghost var e := Event.UpdateMember(who, metadata, nowMs);
      found := who.channel in channels && KeyOf(who) in channels[who.channel];
      SeatIsTaken(channels, members, who);
      RelabelStep(Current(), e);
      if found {
        var member := channels[who.channel][KeyOf(who)].(metadata := metadata, updatedAtMs := nowMs);
        ghost var seat := SeatOf(who.channel, member);
        RelabelOne(channels, members, who, seat, metadata, nowMs);
        PutMember(channels, members, seat, member);
        channels := channels[who.channel := channels[who.channel][KeyOf(who) := member]];
      } else {
        RelabelNone(members, who, metadata, nowMs);
      }
      members := MembersAfterByKey(members, e);
    }

    /** All of a user's seats in a channel are relabelled. */
    method UpdateUserMembers(channel: string, user: string, metadata: string) returns (nowMs: nat, updated: bool)
      requires Valid()
      modifies this
      ensures Valid() && Current() == StepByKey(old(Current()), Event.UpdateUserMembers(channel, user, metadata, nowMs))
      ensures updated <==> exists m :: m in MembersIn(old(members), channel) && m.user == user
    {
      nowMs := *;
      ghost var e := Event.UpdateUserMembers(channel, user, metadata, nowMs);
      RelabelStep(Current(), e);
      SeatsHoldMembers(channels, members, channel);
      var seats: Seats;
      seats, updated := Relabel(SeatsIn(channels, channel), channel, user, metadata, nowMs);
      RelabelSeats(channels, members, channel, seats, e);
      if channel in channels {
        channels := channels[channel := seats];
      }
      members := MembersAfterByKey(members, e);
    }

    method State(channel: string) returns (version: u64)
      ensures version == VersionOf(Current(), channel)
    {
      version := if channel in states then states[channel].version else 0;
    }

    /** Compare-and-set on the version, when the caller names one. */
    method UpdateState(channel: string, state: string, expected: Option<u64>)
      returns (nowMs: nat, snapshot: Option<Snapshot>)
      requires Valid()
      modifies this`states
      ensures Valid() && Current() == StepByKey(old(Current()), Event.UpdateState(channel, state, expected, nowMs))
      ensures snapshot.Some? <==> Accepts(old(Current()), Event.UpdateState(channel, state, expected, nowMs))
      ensures snapshot.Some? ==> channel in states && states[channel] == snapshot.value && snapshot.value.state == state
    {
      nowMs := *;
      UpdateKeepsMembers(Current(), Event.UpdateState(channel, state, expected, nowMs));
      var current := State(channel);
      if expected.Some? && expected.value != current {
        return nowMs, None;
      }
      var version := SaturatingAdd(current, 1);
      states := states[channel := Snapshot(version, state, nowMs)];
      snapshot := Some(states[channel]);
    }

    method NextSequence(channel: string) returns (sequence: nat)
      requires Valid()
      modifies this`sequences
      ensures Valid() && Current() == StepByKey(old(Current()), Event.NextSequence(channel))
      ensures sequence == SequenceOf(Current(), channel) == SequenceOf(old(Current()), channel) + 1
    {
      UpdateKeepsMembers(Current(), Event.NextSequence(channel));
      sequences := sequences[channel := (if channel in sequences then sequences[channel] else 0) + 1];
      sequence := sequences[channel];
    }

    /** State and sequences kept for channels nobody is in. */
    method CleanupOrphanRuntimeState() returns (removedStates: nat, removedSequences: nat)
      requires Valid()
      modifies this`states, this`sequences
      ensures Valid() && Current() == StepByKey(old(Current()), CleanupOrphans)
      ensures removedStates == |old(states).Keys - states.Keys| &&
              removedSequences == |old(sequences).Keys - sequences.Keys|
    {
      var liveChannels := channels.Keys;
      OrphansCleared(Current(), channels);
      var keptStates, keptSequences := Retained(states, liveChannels), Retained(sequences, liveChannels);
      removedStates := CountRemoved(states.Keys, keptStates.Keys);
      removedSequences := CountRemoved(sequences.Keys, keptSequences.Keys);
      states, sequences := keptStates, keptSequences;
    }
  }

  function Retained<T>(kept: map<string, T>, live: set<string>): (left: map<string, T>)
    ensures left.Keys <= kept.Keys
  {
    map c | c in kept && c in live :: kept[c]
  }

  lemma OrphansCleared(w: World, channels: Channels)
    requires Mirrors(channels, w.members) && NoEmptyChannel(channels)
    ensures StepByKey(w, CleanupOrphans) ==
            World(w.members, Retained(w.states, channels.Keys), Retained(w.sequences, channels.Keys))
  {
    forall c
      ensures ClearsTo(w, CleanupOrphans, w.members, c) <==> c !in channels
    {
      KeptIffLive(channels, w.members, c);
    }
    assert MembersAfterByKey(w.members, CleanupOrphans) == w.members;
  }

  method CountRemoved(before: set<string>, after: set<string>) returns (count: nat)
    requires after <= before
    ensures count == |before - after|
  {
    FewerKeys(after, before);
    assert before == after + (before - after);
    count := |before| - |after|;
  }

  lemma FewerKeys<T>(a: set<T>, b: set<T>)
    requires a <= b
    ensures |a| <= |b|
  {
    assert b == a + (b - a);
  }

  lemma JoinStep(w: World, e: Event)
    requires e.Join?
    ensures StepByKey(w, e) ==
            World(Displaced(w.members, e.who)[e.who := Member(e.who.user, e.who.session, e.metadata, e.nowMs, e.nowMs)],
                                     w.states, w.sequences)
    ensures MembersAfterByKey(w.members, e) ==
            Displaced(w.members, e.who)[e.who := Member(e.who.user, e.who.session, e.metadata, e.nowMs, e.nowMs)]
    ensures StepByKey(w, e) == Step(w, e) <==> forall v :: v in w.members && SameKey(v, e.who) ==> v == e.who
  {
    var after := MembersAfterByKey(w.members, e);
    assert after ==
           Displaced(w.members, e.who)[e.who := Member(e.who.user, e.who.session, e.metadata, e.nowMs, e.nowMs)];
    forall c | Live(w.members, c)
      ensures Live(after, c)
    {
      var v :| v in w.members && v.channel == c;
      assert v in after || e.who.channel == c;
      assert e.who in after;
    }
    NothingCleared(w, e);
    StepByKeyIsStepIffNoMixUp(w, e);
    assert NoMixUp(w.members, e) <==> forall v :: v in w.members && SameKey(v, e.who) ==> v == e.who by {
      assert forall v :: v in w.members ==> (Meant(w.members, e, v) <==> (SameKey(v, e.who) ==> v == e.who));
    }
  }

  lemma SessionMixUp(members: map<Who, Member>, user: string, sessionId: string)
    ensures NoMixUp(members, Event.LeaveSession(user, sessionId)) <==>
            forall w :: w in members && KeyOf(w) == MemberKey(user, Some(sessionId)) ==>
              w.user == user && w.session == Some(sessionId)
  {
    var e := Event.LeaveSession(user, sessionId);
    assert forall w :: w in members ==>
      (Meant(members, e, w) <==>
         (KeyOf(w) == MemberKey(user, Some(sessionId)) ==> w.user == user && w.session == Some(sessionId)));
  }

  /** Relabelling clears nothing. */
  lemma RelabelStep(w: World, e: Event)
    requires e.UpdateMember? || e.UpdateUserMembers?
    ensures StepByKey(w, e) == World(MembersAfterByKey(w.members, e), w.states, w.sequences)
    ensures StepByKey(w, e) == Step(w, e) <==> NoMixUp(w.members, e)
  {
    forall c | Live(w.members, c)
      ensures Live(MembersAfterByKey(w.members, e), c)
    {
      var v :| v in w.members && v.channel == c;
      assert v in MembersAfterByKey(w.members, e);
    }
    NothingCleared(w, e);
    StepByKeyIsStepIffNoMixUp(w, e);
  }

  lemma RelabelNone(members: map<Who, Member>, who: Who, metadata: string, nowMs: nat)
    requires forall w :: w in members ==> !SameKey(w, who)
    ensures MembersAfterByKey(members, Event.UpdateMember(who, metadata, nowMs)) == members
  {
  }

  lemma RelabelOne(channels: Channels, members: map<Who, Member>, who: Who, seat: Who, metadata: string, nowMs: nat)
    requires Mirrors(channels, members) && seat in members && SameKey(seat, who)
    ensures MembersAfterByKey(members, Event.UpdateMember(who, metadata, nowMs)) ==
            Displaced(members, seat)[seat := members[seat].(metadata := metadata, updatedAtMs := nowMs)]
  {
    forall w | w in members && SameKey(w, seat)
      ensures w == seat
    {
      OneSeatPerKey(channels, members, w, seat);
    }
  }

  lemma RelabelSeats(channels: Channels, members: map<Who, Member>, channel: string, seats: Seats, e: Event)
    requires Mirrors(channels, members) && NoEmptyChannel(channels) && e.UpdateUserMembers? && e.channel == channel
    requires var before := SeatsIn(channels, channel);
             seats.Keys == before.Keys && forall k :: k in before ==>
               seats[k] == MemberAfter(e, SeatOf(channel, before[k]), before[k])
    ensures var after := if channel in channels then channels[channel := seats] else channels;
            Mirrors(after, MembersAfterByKey(members, e)) && NoEmptyChannel(after)
  {
    var after := if channel in channels then channels[channel := seats] else channels;
    var members' := MembersAfterByKey(members, e);
    forall c, k | c in after && k in after[c]
      ensures Filed(after, members', c, k)
    {
      assert Filed(channels, members, c, k);
    }
    forall who | who in members'
      ensures Found(after, members', who)
    {
      assert Found(channels, members, who);
    }
    if channel in channels {
      var k :| k in channels[channel].Keys;
      assert k in seats;
    }
  }

  lemma SeatIsTaken(channels: Channels, members: map<Who, Member>, who: Who)
    requires Mirrors(channels, members)
    ensures KeyOf(who) in SeatsIn(channels, who.channel) <==> exists w :: w in members && SameKey(w, who)
    ensures KeyOf(who) in SeatsIn(channels, who.channel) ==>
              var member := SeatsIn(channels, who.channel)[KeyOf(who)];
              var seat := SeatOf(who.channel, member);
              seat in members && members[seat] == member && SameKey(seat, who)
  {
    if KeyOf(who) in SeatsIn(channels, who.channel) {
      assert Filed(channels, members, who.channel, KeyOf(who));
    }
    if w :| w in members && SameKey(w, who) {
      assert Found(channels, members, w);
    }
  }

  lemma OneSeatLeaves(channels: Channels, members: map<Who, Member>, c: string, user: string, sessionId: string)
    requires Mirrors(channels, members) && c in channels
    ensures channels[c] - {MemberKey(user, Some(sessionId))} ==
            SeatsLeft(channels[c], c, Event.LeaveSession(user, sessionId))
  {
    forall k | k in channels[c]
      ensures k == MemberKey(user, Some(sessionId)) <==>
                RemovesByKey(Event.LeaveSession(user, sessionId), SeatOf(c, channels[c][k]))
    {
      assert Filed(channels, members, c, k);
    }
  }

  /** One key for a session; without a session every key of the user. */
  function KeysLeaving(seats: Seats, user: string, session: Option<string>): set<string> {
    if session.Some? then {MemberKey(user, session)} else set k | k in seats && seats[k].user == user
  }

  function ChannelsLeft(before: Channels, channel: string, user: string, session: Option<string>): Channels {
    var seats := SeatsIn(before, channel);
    var left := seats - KeysLeaving(seats, user, session);
    if channel !in before then before else if left == map[] then before - {channel} else before[channel := left]
  }

  lemma LeaveDrops(before: Channels, after: Channels, members: map<Who, Member>, channel: string, user: string,
                   session: Option<string>)
    requires Mirrors(before, members) && NoEmptyChannel(before)
    requires after == ChannelsLeft(before, channel, user, session)
    ensures Dropped(before, after, Event.Leave(channel, user, session))
    ensures NoEmptyChannel(after) && before.Keys - after.Keys <= {channel}
  {
    forall c, k {:trigger StaysAt(before, after, Event.Leave(channel, user, session), c, k)}
      ensures StaysAt(before, after, Event.Leave(channel, user, session), c, k)
    {
      if c == channel && k in SeatsIn(before, c) {
        assert Filed(before, members, c, k);
      }
    }
  }

  lemma LeaveStep(w: World, before: Channels, after: Channels, channel: string, user: string, session: Option<string>)
    requires Mirrors(before, w.members) && NoEmptyChannel(before)
    requires after == ChannelsLeft(before, channel, user, session)
    ensures var e := Event.Leave(channel, user, session);
            Mirrors(after, MembersAfterByKey(w.members, e)) && NoEmptyChannel(after) &&
            StepByKey(w, e) ==
              if channel in before && channel !in after
              then World(MembersAfterByKey(w.members, e), w.states - {channel}, w.sequences - {channel})
              else World(MembersAfterByKey(w.members, e), w.states, w.sequences)
  {
    var e := Event.Leave(channel, user, session);
    LeaveDrops(before, after, w.members, channel, user, session);
    DropMembers(before, after, w.members, e);
    ClearedWithChannels(w, e, before, after);
    assert before.Keys - after.Keys == if channel in before && channel !in after then {channel} else {};
  }
}
