/** The keys of the chat log projection, arranged so that byte order lists a room newest first. */
module ChatKeys {
  import opened Lex
  import opened Messages
  import opened Text
  import opened Words

  // ---------------------------------------------------------------- zero-padded numbers

  function Zeros(count: nat): string {
    seq(count, i => '0')
  }

  /** `{:020}`. */
  function Padded(n: nat): string {
    var digits := Decimal(n);
    Zeros(SaturatingSub(20, |digits|)) + digits
  }

  function Power10(exponent: nat): nat {
    if exponent == 0 then 1 else 10 * Power10(exponent - 1)
  }

  /** Exactly `width` digits. */
  function Fixed(n: nat, width: nat): (s: string)
    ensures |s| == width
  {
    if width == 0 then [] else Fixed(n / 10, width - 1) + [Digit(n % 10)]
  }

  lemma {:induction false} ZeroIsZeros(width: nat)
    ensures Fixed(0, width) == Zeros(width)
  {
    if width > 0 {
      ZeroIsZeros(width - 1);
      assert Zeros(width) == Zeros(width - 1) + ['0'];
    }
  }

  lemma {:induction false} PaddedIsFixed(n: nat, width: nat)
    requires width > 0 && n < Power10(width)
    ensures |Decimal(n)| <= width && Zeros(width - |Decimal(n)|) + Decimal(n) == Fixed(n, width)
  {
    if n < 10 {
      ZeroIsZeros(width - 1);
    } else {
      PaddedIsFixed(n / 10, width - 1);
      var rest := Decimal(n / 10);
      assert Zeros(width - 1 - |rest|) + (rest + [Digit(n % 10)]) ==
             (Zeros(width - 1 - |rest|) + rest) + [Digit(n % 10)];
    }
  }

  lemma {:induction false} FixedOrder(a: nat, b: nat, width: nat)
    requires a < b < Power10(width)
    ensures Less(Fixed(a, width), Fixed(b, width))
  {
    var x, y := Fixed(a / 10, width - 1), Fixed(b / 10, width - 1);
    if a / 10 < b / 10 {
      FixedOrder(a / 10, b / 10, width - 1);
    } else {
      assert a / 10 == b / 10;
    }
    SameLengthOrder(x, y, [Digit(a % 10)], [Digit(b % 10)]);
  }

  /** What follows two strings of one length matters only when they are equal. */
  lemma {:induction false} SameLengthOrder(a: string, b: string, x: string, y: string)
    requires |a| == |b|
    ensures Less(a + x, b + y) <==> Less(a, b) || (a == b && Less(x, y))
  {
    if a == [] {
      assert a + x == x && b + y == y;
    } else {
      assert (a + x)[1..] == a[1..] + x && (b + y)[1..] == b[1..] + y;
      assert a == [a[0]] + a[1..] && b == [b[0]] + b[1..];
      SameLengthOrder(a[1..], b[1..], x, y);
    }
  }

  lemma FitsTwentyDigits(n: u64)
    ensures n < Power10(20)
  {
    assert Power10(10) == 10000000000;
    PowersMultiply(10, 10);
  }

  lemma {:induction false} PowersMultiply(a: nat, b: nat)
    ensures Power10(a + b) == Power10(a) * Power10(b)
  {
    if a > 0 {
      PowersMultiply(a - 1, b);
    }
  }

  /** Padding to twenty digits keeps the order of 64-bit numbers, and the complement reverses it. */
  lemma PaddedComplementReverses(a: u64, b: u64)
    ensures |Padded(U64_MAX - a)| == |Padded(U64_MAX - b)| == 20
    ensures Less(Padded(U64_MAX - a), Padded(U64_MAX - b)) <==> a > b
    ensures Padded(U64_MAX - a) == Padded(U64_MAX - b) <==> a == b
  {
    var x: u64, y: u64 := U64_MAX - a, U64_MAX - b;
    Irreflexive(Padded(x));
    PaddedOrder(x, y);
    PaddedOrder(y, x);
  }

  lemma PaddedOrder(x: u64, y: u64)
    ensures |Padded(x)| == |Padded(y)| == 20
    ensures x < y ==> Less(Padded(x), Padded(y)) && !Less(Padded(y), Padded(x)) && Padded(x) != Padded(y)
  {
    FitsTwentyDigits(x);
    FitsTwentyDigits(y);
    PaddedIsFixed(x, 20);
    PaddedIsFixed(y, 20);
    if x < y {
      FixedOrder(x, y, 20);
      Asymmetric(Padded(x), Padded(y));
    }
  }

  // ---------------------------------------------------------------- keys

  const NUL := '\U{0000}'

  predicate NulFree(s: string) {
    NUL !in s
  }

  predicate Fits(m: Message) {
    m.lsn <= U64_MAX && m.createdAtMs <= U64_MAX
  }

  function MessageKey(m: Message): string {
    m.roomId + [NUL] + Padded(SaturatingSub(U64_MAX, m.lsn)) + [NUL] + Padded(SaturatingSub(U64_MAX, m.createdAtMs)) +
    [NUL] + m.id
  }

  function RoomPrefix(room: string): string {
    room + [NUL]
  }

  function RefKey(room: string, id: string): string {
    room + [NUL] + id
  }

  function RefOf(m: Message): string {
    RefKey(m.roomId, m.id)
  }

  /** The part of a key after the room and the LSN. */
  function TimeTail(m: Message): string {
    Padded(SaturatingSub(U64_MAX, m.createdAtMs)) + ([NUL] + m.id)
  }

  /** The part of a key after the room. */
  function KeyTail(m: Message): string {
    Padded(SaturatingSub(U64_MAX, m.lsn)) + ([NUL] + TimeTail(m))
  }

  lemma KeyParts(m: Message)
    ensures MessageKey(m) == RoomPrefix(m.roomId) + KeyTail(m)
  {
  }

  /** Highest LSN first, then latest creation time, then id. */
  predicate Newer(a: Message, b: Message) {
    a.lsn > b.lsn ||
    (a.lsn == b.lsn && (a.createdAtMs > b.createdAtMs || (a.createdAtMs == b.createdAtMs && Less(a.id, b.id))))
  }

  lemma TimeTailOrder(a: Message, b: Message)
    requires Fits(a) && Fits(b)
    ensures Less(TimeTail(a), TimeTail(b)) <==>
              a.createdAtMs > b.createdAtMs || (a.createdAtMs == b.createdAtMs && Less(a.id, b.id))
    ensures TimeTail(a) == TimeTail(b) <==> a.createdAtMs == b.createdAtMs && a.id == b.id
  {
    PaddedComplementReverses(a.createdAtMs, b.createdAtMs);
    AfterNul(Padded(U64_MAX - a.createdAtMs), Padded(U64_MAX - b.createdAtMs), a.id, b.id);
  }

  lemma TailOrder(a: Message, b: Message)
    requires Fits(a) && Fits(b)
    ensures Less(KeyTail(a), KeyTail(b)) <==> Newer(a, b)
    ensures KeyTail(a) == KeyTail(b) <==> a.lsn == b.lsn && a.createdAtMs == b.createdAtMs && a.id == b.id
  {
    TimeTailOrder(a, b);
    PaddedComplementReverses(a.lsn, b.lsn);
    AfterNul(Padded(U64_MAX - a.lsn), Padded(U64_MAX - b.lsn), TimeTail(a), TimeTail(b));
  }

  lemma AfterNul(a: string, b: string, x: string, y: string)
    requires |a| == |b|
    ensures Less(a + ([NUL] + x), b + ([NUL] + y)) <==> Less(a, b) || (a == b && Less(x, y))
    ensures a + ([NUL] + x) == b + ([NUL] + y) <==> a == b && x == y
  {
    CutKey(a, b, [NUL] + x, [NUL] + y);
    CutKey([NUL], [NUL], x, y);
    Irreflexive([NUL]);
  }

  lemma CutKey(a: string, b: string, x: string, y: string)
    requires |a| == |b|
    ensures Less(a + x, b + y) <==> Less(a, b) || (a == b && Less(x, y))
    ensures a + x == b + y <==> a == b && x == y
  {
    SameLengthOrder(a, b, x, y);
    if a + x == b + y {
      assert (a + x)[..|a|] == a && (b + y)[..|b|] == b;
      assert (a + x)[|a|..] == x && (b + y)[|b|..] == y;
    }
  }

  /** Within a room the order of the keys is exactly newest first. */
  lemma KeyOrderIsNewestFirst(a: Message, b: Message)
    requires Fits(a) && Fits(b) && a.roomId == b.roomId
    ensures Less(MessageKey(a), MessageKey(b)) <==> Newer(a, b)
  {
    KeyParts(a);
    KeyParts(b);
    LessAfterPrefix(RoomPrefix(a.roomId), KeyTail(a), KeyTail(b));
    TailOrder(a, b);
  }

  /** For durable messages with different LSNs that is the order of the log, reversed. */
  lemma KeyOrderReversesLogOrder(a: Message, b: Message)
    requires Fits(a) && Fits(b) && a.roomId == b.roomId && a.lsn > 0 && b.lsn > 0 && a.lsn != b.lsn
    ensures Less(MessageKey(a), MessageKey(b)) <==> MessageAtMost(b, a)
  {
    KeyOrderIsNewestFirst(a, b);
  }

  /** Without NUL in the room ids, a prefix can only belong to one room. */
  lemma PrefixNamesRoom(room: string, other: string, tail: string)
    requires NulFree(room) && NulFree(other)
    ensures RoomPrefix(room) <= RoomPrefix(other) + tail <==> room == other
  {
    var key := RoomPrefix(other) + tail;
    if RoomPrefix(room) <= key {
      assert RoomPrefix(room) == key[..|room| + 1];
      assert forall i :: 0 <= i < |room| ==> key[i] == RoomPrefix(room)[i] == room[i];
      assert key[|room|] == RoomPrefix(room)[|room|] == NUL;
      assert forall i :: 0 <= i < |other| ==> key[i] == other[i];
      assert key[|other|] == NUL;
      assert |room| == |other|;
    }
  }

  /** Messages with the same key have the same room and id. */
  lemma KeyNamesMessage(a: Message, b: Message)
    requires Fits(a) && Fits(b) && NulFree(a.roomId) && NulFree(b.roomId)
    ensures MessageKey(a) == MessageKey(b) <==>
              a.roomId == b.roomId && a.lsn == b.lsn && a.createdAtMs == b.createdAtMs && a.id == b.id
  {
    KeyParts(a);
    KeyParts(b);
    if MessageKey(a) == MessageKey(b) {
      assert RoomPrefix(a.roomId) <= MessageKey(b);
      PrefixNamesRoom(a.roomId, b.roomId, KeyTail(b));
    }
    if a.roomId == b.roomId {
      CutKey(RoomPrefix(a.roomId), RoomPrefix(b.roomId), KeyTail(a), KeyTail(b));
      TailOrder(a, b);
    }
  }

  lemma RefNamesMessage(a: Message, b: Message)
    requires NulFree(a.roomId) && NulFree(b.roomId)
    ensures RefOf(a) == RefOf(b) <==> a.roomId == b.roomId && a.id == b.id
  {
    if RefOf(a) == RefOf(b) {
      assert RefOf(a) == RoomPrefix(a.roomId) + a.id && RefOf(b) == RoomPrefix(b.roomId) + b.id;
      assert RoomPrefix(a.roomId) <= RefOf(b);
      PrefixNamesRoom(a.roomId, b.roomId, b.id);
      CutKey(RoomPrefix(a.roomId), RoomPrefix(b.roomId), a.id, b.id);
    }
  }

  // ---------------------------------------------------------------- what the projection needs of its keys

  /** A way to lay messages out in the store: a key each, a reference key each, and a prefix per room. */
  datatype Layout = Layout(key: Message -> string, ref: Message -> string, prefix: string -> string,
                           named: string -> bool) {
    ghost predicate Storable(m: Message) {
      Fits(m) && named(m.roomId)
    }
  }

  /** Two messages with one key are the same message; within a room the order is newest first. */
  ghost predicate KeysTell(l: Layout, a: Message, b: Message) {
    l.Storable(a) && l.Storable(b) ==>
      (l.key(a) == l.key(b) ==> l.ref(a) == l.ref(b)) &&
      (l.ref(a) == l.ref(b) <==> a.roomId == b.roomId && a.id == b.id) &&
      (a.roomId == b.roomId ==> (Less(l.key(a), l.key(b)) <==> Newer(a, b)))
  }

  ghost predicate PrefixTells(l: Layout, room: string, m: Message) {
    l.named(room) && l.Storable(m) ==> (l.prefix(room) <= l.key(m) <==> m.roomId == room)
  }

  ghost predicate Sound(l: Layout) {
    (forall a, b :: KeysTell(l, a, b)) && (forall room, m :: PrefixTells(l, room, m))
  }

  function ChatLayout(): Layout {
    Layout(MessageKey, RefOf, RoomPrefix, NulFree)
  }

  /** The chat log's own keys do all that. */
  lemma ChatLayoutIsSound()
    ensures Sound(ChatLayout())
  {
    forall a, b
      ensures KeysTell(ChatLayout(), a, b)
    {
      ChatKeysTell(a, b);
    }
    forall room, m
      ensures PrefixTells(ChatLayout(), room, m)
    {
      ChatPrefixTells(room, m);
    }
  }

  lemma ChatKeysTell(a: Message, b: Message)
    ensures KeysTell(ChatLayout(), a, b)
  {
    if Fits(a) && Fits(b) && NulFree(a.roomId) && NulFree(b.roomId) {
      KeyNamesMessage(a, b);
      RefNamesMessage(a, b);
      if a.roomId == b.roomId {
        KeyOrderIsNewestFirst(a, b);
      }
    }
  }

  lemma ChatPrefixTells(room: string, m: Message)
    ensures PrefixTells(ChatLayout(), room, m)
  {
    KeyParts(m);
    if NulFree(room) && NulFree(m.roomId) {
      PrefixNamesRoom(room, m.roomId, KeyTail(m));
    }
  }
}
