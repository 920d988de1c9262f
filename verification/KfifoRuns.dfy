/** Whole runs: any number of calls on one ring, against the queue they stand for.

    A run of `__kfifo_in`, `__kfifo_out` and `__kfifo_out_peek` answers like a bounded sequence of
    elements, and a run of the record calls like a queue of byte strings with a bounded encoding.
    Runs are as long as one likes, so the 32-bit indices wrap any number of times. */
module KfifoRuns {
  import opened Machine
  import opened KfifoCore
  import opened KfifoUser
  import opened Records
  import opened KfifoRecord

  /** How many elements or bytes a call reports, and the bytes it delivers. */
  datatype Reply = Reply(n: nat, bytes: seq<Byte>)

  // ---------------------------------------------------------------- elements

  /** Elements as the caller sees them: strings of `e` bytes. */
  ghost predicate Elements(q: seq<seq<Byte>>, e: nat) {
    forall x | x in q :: |x| == e
  }

  function Flatten(q: seq<seq<Byte>>): seq<Byte> {
    if q == [] then [] else q[0] + Flatten(q[1..])
  }

  lemma {:induction false} FlattenLength(q: seq<seq<Byte>>, e: nat)
    requires Elements(q, e)
    ensures |Flatten(q)| == Bytes(|q|, e)
  {
    if q != [] { FlattenLength(q[1..], e); }
  }

  lemma {:induction false} FlattenConcat(q: seq<seq<Byte>>, r: seq<seq<Byte>>)
    ensures Flatten(q + r) == Flatten(q) + Flatten(r)
  {
    if q == [] {
      assert q + r == r;
    } else {
      assert (q + r)[1..] == q[1..] + r;
      FlattenConcat(q[1..], r);
    }
  }

  /** Cutting between elements is cutting between their bytes. */
  lemma FlattenCut(q: seq<seq<Byte>>, e: nat, n: nat)
    requires Elements(q, e) && n <= |q|
    ensures |Flatten(q)| >= Bytes(n, e)
    ensures Flatten(q)[..Bytes(n, e)] == Flatten(q[..n]) && Flatten(q)[Bytes(n, e)..] == Flatten(q[n..])
  {
    hide Flatten, Bytes;
    assert q == q[..n] + q[n..];
    FlattenConcat(q[..n], q[n..]);
    FlattenLength(q[..n], e);
  }

  datatype Call = Put(items: seq<seq<Byte>>) | Get(len: nat) | Peek(len: nat)

  ghost predicate Legal(call: Call, e: nat) {
    match call
    case Put(items) => |items| < U32 && Elements(items, e)
    case Get(len) => len < U32
    case Peek(len) => len < U32
  }

  /** The bounded sequence: what one call makes of it, and what it answers. */
  ghost function QueueAfter(q: seq<seq<Byte>>, size: nat, call: Call): (r: seq<seq<Byte>>)
    requires |q| <= size
    ensures |r| <= size
  {
    match call
    case Put(items) => q + items[..Min(|items|, size - |q|)]
    case Get(len) => q[Min(len, |q|)..]
    case Peek(len) => q
  }

  ghost function Answer(q: seq<seq<Byte>>, size: nat, call: Call): Reply
    requires |q| <= size
  {
    match call
    case Put(items) => Reply(Min(|items|, size - |q|), [])
    case Get(len) => Reply(Min(len, |q|), Flatten(q[..Min(len, |q|)]))
    case Peek(len) => Reply(Min(len, |q|), Flatten(q[..Min(len, |q|)]))
  }

  ghost function QueueAfterAll(q: seq<seq<Byte>>, size: nat, calls: seq<Call>): (r: seq<seq<Byte>>)
    requires |q| <= size
    ensures |r| <= size
  {
    if calls == [] then q
    else QueueAfter(QueueAfterAll(q, size, calls[..|calls| - 1]), size, calls[|calls| - 1])
  }

  ghost function Answers(q: seq<seq<Byte>>, size: nat, calls: seq<Call>): seq<Reply>
    requires |q| <= size
  {
    if calls == [] then []
    else
      var before := calls[..|calls| - 1];
      Answers(q, size, before) + [Answer(QueueAfterAll(q, size, before), size, calls[|calls| - 1])]
  }

  /** The ring holds exactly the elements of `q`. */
  ghost predicate Holds(f: Kfifo, q: seq<seq<Byte>>)
    reads f, f.data
  {
    f.Valid() && Elements(q, f.esize) && f.Count() == |q| && f.Contents() == Flatten(q)
  }

  method Perform(f: Kfifo, call: Call, ghost q: seq<seq<Byte>>) returns (reply: Reply)
    requires Holds(f, q) && Legal(call, f.esize)
    modifies f`inIdx, f`outIdx, f.data
    ensures |q| <= f.mask + 1 && Holds(f, QueueAfter(q, f.mask + 1, call))
    ensures reply == Answer(q, f.mask + 1, call)
  {
    hide Holds, Live, Residue, Wrap32, Bytes, Flatten;
    match call
    case Put(items) => reply := PerformPut(f, items, q);
    case Get(len) => reply := PerformGet(f, len, q);
    case Peek(len) => reply := PerformPeek(f, len, q);
  }

  method PerformPut(f: Kfifo, items: seq<seq<Byte>>, ghost q: seq<seq<Byte>>) returns (reply: Reply)
    requires Holds(f, q) && Legal(Put(items), f.esize)
    modifies f`inIdx, f.data
    ensures |q| <= f.mask + 1 && Holds(f, QueueAfter(q, f.mask + 1, Put(items)))
    ensures reply == Answer(q, f.mask + 1, Put(items))
  {
    hide Live, Residue, Wrap32, Bytes, Flatten;
    FlattenLength(items, f.esize);
    var n := f.In(Flatten(items), |items|);
    FlattenCut(items, f.esize, n);
    FlattenConcat(q, items[..n]);
    FlattenLength(q + items[..n], f.esize);
    SameCount(f.Count(), |q + items[..n]|, f.esize);
    reply := Reply(n, []);
  }

  /** Equal byte counts are equal element counts. */
  lemma SameCount(a: nat, b: nat, e: nat)
    requires Bytes(a, e) == Bytes(b, e) && e >= 1
    ensures a == b
  {
    BytesOrder(a, b, e);
    BytesOrder(b, a, e);
  }

  method PerformGet(f: Kfifo, len: nat, ghost q: seq<seq<Byte>>) returns (reply: Reply)
    requires Holds(f, q) && len < U32
    modifies f`outIdx
    ensures |q| <= f.mask + 1 && Holds(f, QueueAfter(q, f.mask + 1, Get(len)))
    ensures reply == Answer(q, f.mask + 1, Get(len))
  {
    hide Live, Residue, Wrap32, Bytes, Flatten;
    var dst := new Byte[Bytes(Min(len, f.Count()), f.esize)](_ => 0);
    var n := f.Out(dst, len);
    FlattenCut(q, f.esize, n);
    FlattenLength(q[n..], f.esize);
    SameCount(f.Count(), |q[n..]|, f.esize);
    reply := Reply(n, dst[..]);
  }

  method PerformPeek(f: Kfifo, len: nat, ghost q: seq<seq<Byte>>) returns (reply: Reply)
    requires Holds(f, q) && len < U32
    ensures |q| <= f.mask + 1 && Holds(f, q)
    ensures reply == Answer(q, f.mask + 1, Peek(len))
  {
    hide Live, Residue, Wrap32, Bytes, Flatten;
    var dst := new Byte[Bytes(Min(len, f.Count()), f.esize)](_ => 0);
    var n := f.OutPeek(dst, len);
    FlattenCut(q, f.esize, n);
    reply := Reply(n, dst[..]);
  }

  /** Every run of calls on a ring answers like the bounded sequence, call by call, and leaves the
      ring holding what the sequence holds. */
  method Run(f: Kfifo, calls: seq<Call>, ghost q: seq<seq<Byte>>) returns (replies: seq<Reply>)
    requires Holds(f, q) && forall c | c in calls :: Legal(c, f.esize)
    modifies f`inIdx, f`outIdx, f.data
    ensures |q| <= f.mask + 1
    ensures Holds(f, QueueAfterAll(q, f.mask + 1, calls))
    ensures replies == Answers(q, f.mask + 1, calls)
  {
    hide Holds, Legal, QueueAfter, Answer;
    AtMostFull(f, q);
    replies := [];
    for i := 0 to |calls|
      invariant Holds(f, QueueAfterAll(q, f.mask + 1, calls[..i]))
      invariant replies == Answers(q, f.mask + 1, calls[..i])
    {
      var reply := Perform(f, calls[i], QueueAfterAll(q, f.mask + 1, calls[..i]));
      assert calls[..i + 1][..i] == calls[..i];
      replies := replies + [reply];
    }
    assert calls[..|calls|] == calls;
  }

  lemma AtMostFull(f: Kfifo, q: seq<seq<Byte>>)
    requires Holds(f, q)
    ensures |q| <= f.mask + 1
  {}

  lemma HoldsNothing(f: Kfifo)
    requires f.Valid() && f.Contents() == []
    ensures Holds(f, [])
  {
    hide Live, Residue, Wrap32, Bytes;
    BytesZero(f.esize);
    SameCount(f.Count(), 0, f.esize);
  }

  /** From allocation on: a fresh ring is the empty sequence, bounded by the rounded-up size. */
  method AllocateAndRun(size: nat, e: nat, calls: seq<Call>) returns (rc: int, replies: seq<Reply>)
    requires 1 <= size <= U32 / 2 && e >= 1 && Bytes(RoundupPow2(size), e) < U32
    requires forall c | c in calls :: Legal(c, e)
    ensures rc == 0 <==> size > 1
    ensures rc == 0 ==> replies == Answers([], RoundupPow2(size), calls)
  {
    hide Live, Residue, Wrap32, Bytes, Legal, RoundupPow2, Holds, Answers, QueueAfterAll;
    var f := new Kfifo();
    rc := f.Alloc(size, e, true);
    replies := [];
    if rc == 0 {
      HoldsNothing(f);
      replies := Run(f, calls, []);
    }
  }

  /** The bytes a run of calls reports as put in, and the bytes it delivers and removes. */
  ghost function PutIn(calls: seq<Call>, replies: seq<Reply>): seq<Byte>
    requires |calls| == |replies|
    requires forall i: nat | i < |calls| && calls[i].Put? :: replies[i].n <= |calls[i].items|
  {
    if calls == [] then []
    else
      var k := |calls| - 1;
      var before := PutIn(calls[..k], replies[..k]);
      if calls[k].Put? then before + Flatten(calls[k].items[..replies[k].n]) else before
  }

  ghost function TakenOut(calls: seq<Call>, replies: seq<Reply>): seq<Byte>
    requires |calls| == |replies|
  {
    if calls == [] then []
    else
      var k := |calls| - 1;
      var before := TakenOut(calls[..k], replies[..k]);
      if calls[k].Get? then before + replies[k].bytes else before
  }

  lemma MoreIn<T>(start: seq<T>, into: seq<T>, out: seq<T>, left: seq<T>, more: seq<T>)
    requires start + into == out + left
    ensures start + (into + more) == out + (left + more)
  {
    assert start + (into + more) == (start + into) + more;
    assert out + (left + more) == (out + left) + more;
  }

  lemma MoreOut<T>(whole: seq<T>, out: seq<T>, left: seq<T>, front: seq<T>, rest: seq<T>)
    requires whole == out + left && left == front + rest
    ensures whole == (out + front) + rest
  {}

  /** Every call has an answer, and a put reports no more than it was given. */
  lemma {:induction false} AnswersFit(q: seq<seq<Byte>>, size: nat, calls: seq<Call>)
    requires |q| <= size
    ensures |Answers(q, size, calls)| == |calls|
    ensures forall i: nat | i < |calls| && calls[i].Put? :: Answers(q, size, calls)[i].n <= |calls[i].items|
    decreases |calls|
  {
    hide Flatten, QueueAfterAll;
    if calls != [] {
      var k, replies := |calls| - 1, Answers(q, size, calls);
      AnswersFit(q, size, calls[..k]);
      assert replies[..k] == Answers(q, size, calls[..k]);
      forall i: nat | i < |calls| && calls[i].Put? ensures replies[i].n <= |calls[i].items| {
        if i < k { assert calls[..k][i] == calls[i] && replies[..k][i] == replies[i]; }
      }
    }
  }

  /** Nothing is lost, made up or reordered over a run: what was there and what went in is what came
      out and what is there. */
  lemma {:induction false} RunConserves(q: seq<seq<Byte>>, size: nat, calls: seq<Call>)
    requires |q| <= size
    ensures |Answers(q, size, calls)| == |calls|
    ensures forall i: nat | i < |calls| && calls[i].Put? :: Answers(q, size, calls)[i].n <= |calls[i].items|
    ensures Flatten(q) + PutIn(calls, Answers(q, size, calls)) ==
              TakenOut(calls, Answers(q, size, calls)) + Flatten(QueueAfterAll(q, size, calls))
    decreases |calls|
  {
    hide Flatten;
    AnswersFit(q, size, calls);
    if calls == [] {
      assert QueueAfterAll(q, size, calls) == q;
    } else {
      var k, replies := |calls| - 1, Answers(q, size, calls);
      RunConserves(q, size, calls[..k]);
      assert replies[..k] == Answers(q, size, calls[..k]);
      CallConserves(QueueAfterAll(q, size, calls[..k]), size, calls[k], Flatten(q),
                    PutIn(calls[..k], replies[..k]), TakenOut(calls[..k], replies[..k]));
    }
  }

  lemma CallConserves(q: seq<seq<Byte>>, size: nat, call: Call, start: seq<Byte>, into: seq<Byte>, out: seq<Byte>)
    requires |q| <= size && start + into == out + Flatten(q)
    ensures var reply, after := Answer(q, size, call), Flatten(QueueAfter(q, size, call));
            match call
            case Put(items) => reply.n <= |items| && start + (into + Flatten(items[..reply.n])) == out + after
            case Get(_) => start + into == (out + reply.bytes) + after
            case Peek(_) => start + into == out + after
  {
    hide Flatten;
    var n := Answer(q, size, call).n;
    match call
    case Put(items) =>
      FlattenConcat(q, items[..n]);
      MoreIn(start, into, out, Flatten(q), Flatten(items[..n]));
    case Get(_) =>
      assert q == q[..n] + q[n..];
      FlattenConcat(q[..n], q[n..]);
      MoreOut(start + into, out, Flatten(q), Flatten(q[..n]), Flatten(q[n..]));
    case Peek(_) =>
  }

  // ---------------------------------------------------------------- records

  datatype RecordCall = PutRecord(buf: seq<Byte>) | GetRecord(len: nat) | PeekRecord(len: nat) | Length | Skip

  /** What the layer asks of its callers: bodies that fit the header, and a record to measure or
      skip. */
  ghost predicate LegalRecord(q: seq<seq<Byte>>, call: RecordCall, rs: nat) {
    match call
    case PutRecord(buf) => |buf| < Limit(rs)
    case GetRecord(len) => true
    case PeekRecord(len) => true
    case Length => q != []
    case Skip => q != []
  }

  /** Room for one more record of `size` bytes of memory. */
  ghost predicate Fits(q: seq<seq<Byte>>, body: seq<Byte>, size: nat, rs: nat)
    requires HeaderSize(rs)
  {
    |Encode(q, rs)| + |Record(body, rs)| <= size
  }

  /** The queue of byte strings: what one call makes of it, and what it answers. */
  ghost function RecordsAfter(q: seq<seq<Byte>>, size: nat, rs: nat, call: RecordCall): seq<seq<Byte>>
    requires HeaderSize(rs)
  {
    match call
    case PutRecord(buf) => if Fits(q, buf, size, rs) then q + [buf] else q
    case GetRecord(len) => if q == [] then q else q[1..]
    case PeekRecord(len) => q
    case Length => q
    case Skip => if q == [] then q else q[1..]
  }

  ghost function RecordAnswer(q: seq<seq<Byte>>, size: nat, rs: nat, call: RecordCall): Reply
    requires HeaderSize(rs)
  {
    match call
    case PutRecord(buf) => Reply(if Fits(q, buf, size, rs) then |buf| else 0, [])
    case GetRecord(len) => HeadAnswer(q, len)
    case PeekRecord(len) => HeadAnswer(q, len)
    case Length => Reply(if q == [] then 0 else |q[0]|, [])
    case Skip => Reply(0, [])
  }

  /** A prefix of the head record. */
  ghost function HeadAnswer(q: seq<seq<Byte>>, len: nat): Reply {
    if q == [] then Reply(0, []) else Reply(Min(len, |q[0]|), q[0][..Min(len, |q[0]|)])
  }

  ghost function RecordsAfterAll(q: seq<seq<Byte>>, size: nat, rs: nat, calls: seq<RecordCall>): seq<seq<Byte>>
    requires HeaderSize(rs)
  {
    if calls == [] then q
    else RecordsAfter(RecordsAfterAll(q, size, rs, calls[..|calls| - 1]), size, rs, calls[|calls| - 1])
  }

  ghost function RecordAnswers(q: seq<seq<Byte>>, size: nat, rs: nat, calls: seq<RecordCall>): seq<Reply>
    requires HeaderSize(rs)
  {
    if calls == [] then []
    else
      var before := calls[..|calls| - 1];
      RecordAnswers(q, size, rs, before)
      + [RecordAnswer(RecordsAfterAll(q, size, rs, before), size, rs, calls[|calls| - 1])]
  }

  ghost predicate LegalRecords(q: seq<seq<Byte>>, size: nat, rs: nat, calls: seq<RecordCall>)
    requires HeaderSize(rs)
  {
    forall i: nat | i < |calls| :: LegalRecord(RecordsAfterAll(q, size, rs, calls[..i]), calls[i], rs)
  }

  ghost predicate HoldsRecords(f: Kfifo, rs: nat, q: seq<seq<Byte>>)
    reads f, f.data
  {
    RecordRing(f, rs) && Queue(f, rs) == q
  }

  /** The live bytes are the encoded queue, no more. */
  lemma ContentsAreEncoded(f: Kfifo, rs: nat)
    requires RecordRing(f, rs)
    ensures f.Count() == |Encode(Queue(f, rs), rs)|
  {
    hide Live, WellFormed, Decode, Encode;
    EncodeDecode(f.Contents(), rs);
    BytesOne(f.Count());
  }

  method PerformRecord(f: Kfifo, call: RecordCall, rs: nat, ghost q: seq<seq<Byte>>) returns (reply: Reply)
    requires HoldsRecords(f, rs, q) && LegalRecord(q, call, rs)
    modifies f`inIdx, f`outIdx, f.data
    ensures HeaderSize(rs) && HoldsRecords(f, rs, RecordsAfter(q, f.mask + 1, rs, call))
    ensures reply == RecordAnswer(q, f.mask + 1, rs, call)
  {
    hide Live, Residue, Wrap32, Bytes, WellFormed, Decode, Encode, Header;
    match call
    case PutRecord(buf) =>
      ContentsAreEncoded(f, rs);
      var n := InR(f, buf, rs);
      reply := Reply(n, []);
    case GetRecord(len) =>
      reply := PerformGetRecord(f, len, rs, q);
    case PeekRecord(len) =>
      reply := PerformPeekRecord(f, len, rs, q);
    case Length =>
      var n := LenR(f, rs);
      reply := Reply(n, []);
    case Skip =>
      SkipR(f, rs);
      reply := Reply(0, []);
  }

  method PerformGetRecord(f: Kfifo, len: nat, rs: nat, ghost q: seq<seq<Byte>>) returns (reply: Reply)
    requires HoldsRecords(f, rs, q)
    modifies f`outIdx
    ensures HoldsRecords(f, rs, if q == [] then q else q[1..])
    ensures reply == HeadAnswer(q, len)
  {
    hide Live, Residue, Wrap32, Bytes, WellFormed, Decode;
    var dst := new Byte[len](_ => 0);
    var l := OutR(f, dst, len, rs);
    reply := Reply(l, dst[..l]);
  }

  method PerformPeekRecord(f: Kfifo, len: nat, rs: nat, ghost q: seq<seq<Byte>>) returns (reply: Reply)
    requires HoldsRecords(f, rs, q)
    ensures HoldsRecords(f, rs, q)
    ensures reply == HeadAnswer(q, len)
  {
    hide Live, Residue, Wrap32, Bytes, WellFormed, Decode;
    var dst := new Byte[len](_ => 0);
    var l := OutPeekR(f, dst, len, rs);
    EmptyOrNot(f);
    reply := Reply(l, dst[..l]);
  }

  /** Every legal run of record calls answers like the queue of byte strings and leaves the ring a
      concatenation of whole records. */
  method RunRecords(f: Kfifo, calls: seq<RecordCall>, rs: nat, ghost q: seq<seq<Byte>>) returns (replies: seq<Reply>)
    requires HoldsRecords(f, rs, q) && LegalRecords(q, f.mask + 1, rs, calls)
    modifies f`inIdx, f`outIdx, f.data
    ensures HoldsRecords(f, rs, RecordsAfterAll(q, f.mask + 1, rs, calls))
    ensures replies == RecordAnswers(q, f.mask + 1, rs, calls)
  {
    hide RecordRing, Queue, LegalRecord, RecordsAfter, RecordAnswer;
    assert HeaderSize(rs) by { RingHasHeader(f, rs); }
    replies := [];
    for i := 0 to |calls|
      invariant HoldsRecords(f, rs, RecordsAfterAll(q, f.mask + 1, rs, calls[..i]))
      invariant replies == RecordAnswers(q, f.mask + 1, rs, calls[..i])
    {
      var reply := PerformRecord(f, calls[i], rs, RecordsAfterAll(q, f.mask + 1, rs, calls[..i]));
      assert calls[..i + 1][..i] == calls[..i];
      replies := replies + [reply];
    }
    assert calls[..|calls|] == calls;
  }

  lemma RingHasHeader(f: Kfifo, rs: nat)
    requires RecordRing(f, rs)
    ensures HeaderSize(rs)
  {}

  /** From allocation on: a fresh ring of bytes is the empty queue of records. */
  method AllocateAndRunRecords(size: nat, rs: nat, calls: seq<RecordCall>) returns (rc: int, replies: seq<Reply>)
    requires 1 <= size <= U32 / 2 && HeaderSize(rs) && LegalRecords([], RoundupPow2(size), rs, calls)
    ensures rc == 0 <==> size > 1
    ensures rc == 0 ==> replies == RecordAnswers([], RoundupPow2(size), rs, calls)
  {
    hide Live, Residue, Wrap32, Bytes, LegalRecords, RoundupPow2, WellFormed, Decode;
    RoundupInRange(size);
    BytesOne(RoundupPow2(size));
    var f := new Kfifo();
    rc := f.Alloc(size, 1, true);
    replies := [];
    if rc == 0 {
      NoRecords(rs);
      replies := RunRecords(f, calls, rs, []);
    }
  }

  // ---------------------------------------------------------------- conservation of records

  /** The records a run stores, and the records it removes. */
  ghost function Stored(q: seq<seq<Byte>>, size: nat, rs: nat, calls: seq<RecordCall>): seq<seq<Byte>>
    requires HeaderSize(rs)
  {
    if calls == [] then []
    else
      var k := |calls| - 1;
      var stored, before := Stored(q, size, rs, calls[..k]), RecordsAfterAll(q, size, rs, calls[..k]);
      if calls[k].PutRecord? && Fits(before, calls[k].buf, size, rs) then stored + [calls[k].buf] else stored
  }

  ghost function Removed(q: seq<seq<Byte>>, size: nat, rs: nat, calls: seq<RecordCall>): seq<seq<Byte>>
    requires HeaderSize(rs)
  {
    if calls == [] then []
    else
      var k := |calls| - 1;
      var removed, before := Removed(q, size, rs, calls[..k]), RecordsAfterAll(q, size, rs, calls[..k]);
      if (calls[k].GetRecord? || calls[k].Skip?) && before != [] then removed + [before[0]] else removed
  }

  /** The record queue is first in, first out over a whole run. */
  lemma {:induction false} RecordsConserved(q: seq<seq<Byte>>, size: nat, rs: nat, calls: seq<RecordCall>)
    requires HeaderSize(rs)
    ensures q + Stored(q, size, rs, calls) == Removed(q, size, rs, calls) + RecordsAfterAll(q, size, rs, calls)
    decreases |calls|
  {
    hide Fits;
    if calls != [] {
      var k := |calls| - 1;
      RecordsConserved(q, size, rs, calls[..k]);
      var before := RecordsAfterAll(q, size, rs, calls[..k]);
      var stored, removed := Stored(q, size, rs, calls[..k]), Removed(q, size, rs, calls[..k]);
      if calls[k].PutRecord? {
        MoreIn(q, stored, removed, before, [calls[k].buf]);
      } else if (calls[k].GetRecord? || calls[k].Skip?) && before != [] {
        MoreOut(q + stored, removed, before, [before[0]], before[1..]);
      }
    }
  }
}
