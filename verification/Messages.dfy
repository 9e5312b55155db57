/** Room messages and the order used for them by the room actor and by the chat log. */
module Messages {
  import opened Lex
  import opened Sorting

  datatype Message = Message(id: string, roomId: string, senderId: string, body: string, attachments: seq<string>,
                             createdAtMs: nat, lsn: nat, path: string)

  /** Two durable messages compare by LSN; a volatile one (LSN 0) compares by creation time and id. */
  predicate MessageAtMost(a: Message, b: Message) {
    if a.lsn > 0 && b.lsn > 0 then a.lsn <= b.lsn
    else a.createdAtMs < b.createdAtMs || (a.createdAtMs == b.createdAtMs && AtMost(a.id, b.id))
  }

  ghost predicate Durable(messages: seq<Message>) {
    forall m :: m in messages ==> m.lsn > 0
  }

  ghost predicate Volatile(messages: seq<Message>) {
    forall m :: m in messages ==> m.lsn == 0
  }

  ghost predicate DistinctLsns(messages: seq<Message>) {
    forall a, b {:trigger MessageAtMost(a, b)} :: a in messages && b in messages && a.lsn == b.lsn ==> a == b
  }

  /** `v` stands between `p` and `q`: their LSNs agree with that, strictly unless all three are tied. */
  ghost predicate CutAgrees(p: Message, v: Message, q: Message) {
    p.lsn > 0 && q.lsn > 0 && v.lsn == 0 && MessageAtMost(p, v) && MessageAtMost(v, q) ==>
      p.lsn <= q.lsn && (!(MessageAtMost(v, p) && MessageAtMost(q, v)) ==> p.lsn < q.lsn)
  }

  /** No volatile message separates two durable ones against their LSN order. */
  ghost predicate CutsAgree(messages: seq<Message>) {
    forall p, v, q {:trigger CutAgrees(p, v, q)} :: p in messages && v in messages && q in messages ==>
      CutAgrees(p, v, q)
  }

  lemma EitherWay(a: Message, b: Message)
    ensures MessageAtMost(a, b) || MessageAtMost(b, a)
  {
    AtMostTotal(a.id, b.id);
  }

  lemma TransitiveIfCutsAgree(a: Message, b: Message, c: Message)
    requires MessageAtMost(a, b) && MessageAtMost(b, c)
    requires CutAgrees(a, b, c) && CutAgrees(b, c, a) && CutAgrees(c, a, b)
    ensures MessageAtMost(a, c)
  {
    EitherWay(a, c);
    if a.createdAtMs == b.createdAtMs == c.createdAtMs && AtMost(a.id, b.id) && AtMost(b.id, c.id) {
      AtMostTransitive(a.id, b.id, c.id);
    }
  }

  lemma CutAgreesIfTransitive(p: Message, v: Message, q: Message)
    requires MessageAtMost(p, v) && MessageAtMost(v, q) ==> MessageAtMost(p, q)
    requires MessageAtMost(q, p) && MessageAtMost(p, v) ==> MessageAtMost(q, v)
    requires MessageAtMost(v, q) && MessageAtMost(q, p) ==> MessageAtMost(v, p)
    ensures CutAgrees(p, v, q)
  {
  }

  /** The comparison is a total preorder on the given messages exactly when no cut disagrees. */
  lemma OrderedIffCutsAgree(messages: seq<Message>)
    ensures OrdersAll(MessageAtMost, messages) <==> CutsAgree(messages)
  {
    forall a, b | a in messages && b in messages
      ensures MessageAtMost(a, b) || MessageAtMost(b, a)
    {
      EitherWay(a, b);
    }
    if CutsAgree(messages) {
      forall a, b, c | a in messages && b in messages && c in messages && MessageAtMost(a, b) && MessageAtMost(b, c)
        ensures MessageAtMost(a, c)
      {
        assert CutAgrees(a, b, c) && CutAgrees(b, c, a) && CutAgrees(c, a, b);
        TransitiveIfCutsAgree(a, b, c);
      }
    }
    if OrdersAll(MessageAtMost, messages) {
      forall p, v, q | p in messages && v in messages && q in messages
        ensures CutAgrees(p, v, q)
      {
        CutAgreesIfTransitive(p, v, q);
      }
    }
  }

  /** In particular among messages of one kind. */
  lemma OneKindIsOrdered(messages: seq<Message>)
    requires Durable(messages) || Volatile(messages)
    ensures OrdersAll(MessageAtMost, messages)
  {
    OrderedIffCutsAgree(messages);
  }

  /** Between kinds it is not: a later LSN created earlier and a volatile message in between form a cycle. */
  lemma MixedKindsCycle()
    ensures exists a: Message, b: Message, c: Message ::
              a.lsn > 0 && b.lsn > 0 && c.lsn == 0 &&
              MessageAtMost(a, b) && !MessageAtMost(b, a) && MessageAtMost(b, c) && !MessageAtMost(c, b) &&
              MessageAtMost(c, a) && !MessageAtMost(a, c)
  {
    var a := Message("a", "room", "sender", "", [], 30, 1, "");
    var b := Message("b", "room", "sender", "", [], 10, 2, "");
    var c := Message("c", "room", "sender", "", [], 20, 0, "");
    assert MessageAtMost(a, b) && !MessageAtMost(b, a) && MessageAtMost(b, c) && !MessageAtMost(c, b);
    assert MessageAtMost(c, a) && !MessageAtMost(a, c);
  }
}
