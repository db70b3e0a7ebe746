/** Message framing between the core and its workers: key/value vectors in flat
    form, each followed by a delimiter, through a chunked byte queue. */
module Worker {
  import opened Basics
  import opened Bytes
  import opened BufferQueue
  import opened KvVec

  const MSG_DELIM: seq<Byte> := [1, 0, 0, 0]   // "\1\0\0" with its own terminator
  const PAIR_SEP: Byte := 0
  const KV_SEP: Byte := 61                     // '='

  /** What a message may hold: at least one pair, no '=' or NUL in keys, no NUL in values. */
  predicate Sendable(kvs: seq<KeyValue>) {
    kvs != [] && forall i :: 0 <= i < |kvs| ==> Encodable(kvs[i], KV_SEP, PAIR_SEP)
  }

  ghost function Body(kvs: seq<KeyValue>): seq<Byte> {
    Encode(kvs, KV_SEP, PAIR_SEP)
  }

  ghost function Frame(kvs: seq<KeyValue>): seq<Byte> {
    Body(kvs) + MSG_DELIM
  }

  /** The bytes on the wire for a list of messages. */
  ghost function Wire(msgs: seq<seq<KeyValue>>): seq<Byte> {
    if msgs == [] then [] else Frame(msgs[0]) + Wire(msgs[1..])
  }

  /** No two neighbouring bytes are NUL. */
  ghost predicate Sparse(s: seq<Byte>) {
    forall k :: 0 < k < |s| ==> s[k - 1] != 0 || s[k] != 0
  }

  lemma SparsePair(kv: KeyValue)
    requires Encodable(kv, KV_SEP, PAIR_SEP)
    ensures var e := EncodePair(kv, KV_SEP, PAIR_SEP);
      Sparse(e) && e != [] && e[0] != 0 && e[|e| - 1] == 0
  {
    PairShape(kv, KV_SEP, PAIR_SEP);
  }

  /** A body never has two NULs in a row, so no delimiter can start in it. */
  lemma {:induction false} SparseBody(kvs: seq<KeyValue>)
    requires forall i :: 0 <= i < |kvs| ==> Encodable(kvs[i], KV_SEP, PAIR_SEP)
    ensures Sparse(Body(kvs))
    ensures kvs != [] ==> Body(kvs) != [] && Body(kvs)[|Body(kvs)| - 1] == 0
  {
    if kvs != [] {
      var front, last := kvs[..|kvs| - 1], kvs[|kvs| - 1];
      SparseBody(front);
      SparsePair(last);
      JoinSparse(Body(front), EncodePair(last, KV_SEP, PAIR_SEP));
    }
  }

  lemma JoinSparse(a: seq<Byte>, b: seq<Byte>)
    requires Sparse(a) && Sparse(b) && b != [] && b[0] != 0
    ensures Sparse(a + b)
  {
    var s := a + b;
    forall k | 0 < k < |s| ensures s[k - 1] != 0 || s[k] != 0 {
      if k < |a| {
        assert s[k - 1] == a[k - 1] && s[k] == a[k];
      } else if k > |a| {
        assert s[k - 1] == b[k - |a| - 1] && s[k] == b[k - |a|];
      }
    }
  }

  lemma NotADelim(s: seq<Byte>, j: nat)
    requires j + 4 <= |s| ==> s[j + 1] != 0 || s[j + 2] != 0
    ensures !DelimAt(s, MSG_DELIM, j)
  {
    if j + 4 <= |s| {
      var d := s[j..j + 4];
      assert d[1] == s[j + 1] && d[2] == s[j + 2];
    }
  }

  /** In any stream that begins with a frame the first delimiter is the frame's own. */
  lemma FirstDelimOfFrame(kvs: seq<KeyValue>, rest: seq<Byte>)
    requires forall i :: 0 <= i < |kvs| ==> Encodable(kvs[i], KV_SEP, PAIR_SEP)
    ensures IsFirstDelim(Frame(kvs) + rest, MSG_DELIM, |Body(kvs)|)
  {
    var b, s := Body(kvs), Frame(kvs) + rest;
    SparseBody(kvs);
    assert s[|b|..|b| + 4] == MSG_DELIM;
    assert forall k :: 0 <= k < |b| ==> s[k] == b[k];
    assert s[|b|] == MSG_DELIM[0];
    forall j | 0 <= j < |b| ensures !DelimAt(s, MSG_DELIM, j) {
      if j + 2 < |b| {
        assert b[j + 1] != 0 || b[j + 2] != 0;
      }
      NotADelim(s, j);
    }
  }

  /** What arrived so far decides it already: a delimiter in a part of the
      stream ends the first frame, and one is there once the frame is complete. */
  lemma FirstDelimOfPart(kvs: seq<KeyValue>, rest: seq<Byte>, part: seq<Byte>)
    requires forall i :: 0 <= i < |kvs| ==> Encodable(kvs[i], KV_SEP, PAIR_SEP)
    requires part <= Frame(kvs) + rest
    ensures forall k :: IsFirstDelim(part, MSG_DELIM, k) ==> k == |Body(kvs)| && part[..k] == Body(kvs) && |Frame(kvs)| <= |part|
    ensures |Frame(kvs)| <= |part| ==> !NoDelim(part, MSG_DELIM, 0, |part|)
  {
    var s := Frame(kvs) + rest;
    FirstDelimOfFrame(kvs, rest);
    forall k | 0 <= k && k + 4 <= |part| ensures DelimAt(part, MSG_DELIM, k) <==> DelimAt(s, MSG_DELIM, k) {
      assert part[k..k + 4] == s[k..k + 4];
    }
    if |Frame(kvs)| <= |part| {
      assert DelimAt(part, MSG_DELIM, |Body(kvs)|);
    }
    assert |Body(kvs)| <= |part| ==> part[..|Body(kvs)|] == Body(kvs);
  }

  /** Builds the bytes of one message. */
  method BuildKvvecBuf(kvv: Vector) returns (buf: array<Byte>)
    requires kvv.Valid()
    ensures fresh(buf) && buf[..] == Frame(kvv.Contents())
    ensures buf[..] == Encode(kvv.Contents(), 61, 0) + [1, 0, 0, 0]
  {
    var buflen;
    buf, buflen := kvv.ToBuf(KV_SEP, PAIR_SEP, |MSG_DELIM|);
    ghost var was := buf[..buflen];
    var end := Put(buf, buf.Length - |MSG_DELIM|, MSG_DELIM);
    assert buf[..] == was + MSG_DELIM;
  }

  /** Takes the next complete message off the queue, without its delimiter. */
  method WorkerIoc2msg(bq: Queue) returns (found: bool, msg: seq<Byte>)
    requires bq.Valid()
    modifies bq, bq.repr
    ensures bq.Valid() && bq.repr == old(bq.repr)
    ensures found ==> old(bq.stream) == msg + MSG_DELIM + bq.stream && IsFirstDelim(old(bq.stream), MSG_DELIM, |msg|)
    ensures !found ==> bq.stream == old(bq.stream) && NoDelim(bq.stream, MSG_DELIM, 0, |bq.stream|)
  {
    hide Queue.Valid, NoDelim;
    var ret, res := bq.UnshiftToDelim(MSG_DELIM);
    if ret != 0 {
      return false, [];
    }
    var size := |res| - |MSG_DELIM|;
    assert old(bq.stream)[size..size + 4] == res[size..];
    return true, res[..size];
  }

  /** What the reader of a connection does: bytes come in, or it looks for a message. */
  datatype Step = Deliver(n: nat) | Receive

  /** How much of the wire has arrived, and how many messages have been received. */
  datatype Reception = Reception(delivered: nat, count: nat)

  /** What the steps come to: bytes arrive as long as there are any, and an attempt yields the
      next message exactly when all of it has arrived. */
  ghost function After(msgs: seq<seq<KeyValue>>, steps: seq<Step>): (r: Reception)
    ensures r.delivered <= |Wire(msgs)| && r.count <= |msgs|
  {
    if steps == [] then Reception(0, 0)
    else
      var p := After(msgs, steps[..|steps| - 1]);
      match steps[|steps| - 1]
      case Deliver(n) => p.(delivered := Min(p.delivered + n, |Wire(msgs)|))
      case Receive =>
        if p.count < |msgs| && |Wire(msgs[..p.count + 1])| <= p.delivered then p.(count := p.count + 1) else p
  }

  /** How many bytes the steps would deliver, and how many attempts come last. */
  ghost function Brought(steps: seq<Step>): nat {
    if steps == [] then 0
    else Brought(steps[..|steps| - 1]) + if steps[|steps| - 1].Deliver? then steps[|steps| - 1].n else 0
  }

  ghost function Trailing(steps: seq<Step>): nat {
    if steps == [] || steps[|steps| - 1].Deliver? then 0 else 1 + Trailing(steps[..|steps| - 1])
  }

  /** All the wire arrives if it is delivered, and all messages are received if there are as
      many attempts behind it. */
  lemma {:induction false} AllArrive(msgs: seq<seq<KeyValue>>, steps: seq<Step>)
    ensures After(msgs, steps).delivered == Min(Brought(steps), |Wire(msgs)|)
    ensures Brought(steps) >= |Wire(msgs)| ==> After(msgs, steps).count >= Min(Trailing(steps), |msgs|)
  {
    hide Wire;
    if steps != [] {
      var before := steps[..|steps| - 1];
      AllArrive(msgs, before);
      var c := After(msgs, before).count;
      if c < |msgs| { WireSplits(msgs, c + 1); }
    }
  }

  ghost function Attempts(steps: seq<Step>): nat {
    if steps == [] then 0 else Attempts(steps[..|steps| - 1]) + if steps[|steps| - 1].Receive? then 1 else 0
  }

  /** No message is received before all of it has arrived, and at most one at an attempt. */
  lemma {:induction false} NoneEarly(msgs: seq<seq<KeyValue>>, steps: seq<Step>)
    ensures var r := After(msgs, steps);
            |Wire(msgs[..r.count])| <= r.delivered && r.count <= Attempts(steps)
  {
    hide Wire;
    if steps == [] {
      assert Wire([]) == [] by { NothingOnWire(); }
    } else {
      NoneEarly(msgs, steps[..|steps| - 1]);
    }
  }

  lemma NothingOnWire()
    ensures Wire([]) == []
  {
  }

  lemma {:induction false} WireJoins(xs: seq<seq<KeyValue>>, ys: seq<seq<KeyValue>>)
    ensures Wire(xs + ys) == Wire(xs) + Wire(ys)
  {
    if xs == [] {
      assert xs + ys == ys;
    } else {
      WireJoins(xs[1..], ys);
      assert (xs + ys)[1..] == xs[1..] + ys;
      Associative(Frame(xs[0]), Wire(xs[1..]), Wire(ys));
    }
  }

  lemma WireSplits(msgs: seq<seq<KeyValue>>, k: nat)
    requires k <= |msgs|
    ensures |Wire(msgs)| == |Wire(msgs[..k])| + |Wire(msgs[k..])|
    ensures k < |msgs| ==> |Wire(msgs[..k + 1])| == |Wire(msgs[..k])| + |Frame(msgs[k])|
  {
    hide Wire, Frame;
    assert msgs == msgs[..k] + msgs[k..];
    WireJoins(msgs[..k], msgs[k..]);
    if k < |msgs| {
      assert msgs[..k + 1] == msgs[..k] + [msgs[k]];
      WireAppend(msgs[..k], msgs[k]);
    }
  }

  lemma WireAppend(msgs: seq<seq<KeyValue>>, m: seq<KeyValue>)
    ensures Wire(msgs + [m]) == Wire(msgs) + Frame(m)
  {
    WireJoins(msgs, [m]);
    assert Wire([m]) == Frame(m) + Wire([]);
  }

  /** What some vectors hold. */
  ghost function AllContents(vectors: seq<Vector>): (msgs: seq<seq<KeyValue>>)
    requires forall i :: 0 <= i < |vectors| ==> vectors[i].Valid()
    reads vectors, set v | v in vectors :: v.kv
    ensures |msgs| == |vectors| && forall i :: 0 <= i < |vectors| ==> msgs[i] == vectors[i].Contents()
  {
    if vectors == [] then [] else [vectors[0].Contents()] + AllContents(vectors[1..])
  }

  ghost predicate AllSendable(vectors: seq<Vector>)
    reads vectors, set v | v in vectors :: v.kv
  {
    forall i :: 0 <= i < |vectors| ==> vectors[i].Valid() && Sendable(vectors[i].Contents())
  }

  /** Builds the messages and puts them on the wire. */
  method BuildWire(vectors: seq<Vector>) returns (wire: seq<Byte>, ghost msgs: seq<seq<KeyValue>>)
    requires AllSendable(vectors)
    ensures AllSendable(vectors) && |msgs| == |vectors|
    ensures forall i :: 0 <= i < |vectors| ==> msgs[i] == vectors[i].Contents() && Sendable(msgs[i])
    ensures wire == Wire(msgs)
  {
    wire, msgs := [], [];
    var i := 0;
    while i < |vectors|
      invariant 0 <= i <= |vectors| && |msgs| == i && AllSendable(vectors)
      invariant forall j :: 0 <= j < i ==> msgs[j] == vectors[j].Contents()
      invariant wire == Wire(msgs)
    {
      var buf := BuildKvvecBuf(vectors[i]);
      WireAppend(msgs, vectors[i].Contents());
      wire, msgs := wire + buf[..], msgs + [vectors[i].Contents()];
      i := i + 1;
    }
  }

  /** One attempt to receive.  The queue holds a part of what is still to come;
      the next message comes out whole and unchanged, or nothing happens because
      it has not arrived yet. */
  method ReceiveOne(bq: Queue, copy: bool, ghost msgs: seq<seq<KeyValue>>, ghost rest: seq<Byte>)
    returns (found: bool, kvs: seq<KeyValue>)
    requires bq.Valid() && bq.stream + rest == Wire(msgs)
    requires forall i :: 0 <= i < |msgs| ==> Sendable(msgs[i])
    modifies bq, bq.repr
    ensures bq.Valid() && bq.repr == old(bq.repr)
    ensures found ==> msgs != [] && kvs == msgs[0] && bq.stream + rest == Wire(msgs[1..])
    ensures !found ==> bq.stream == old(bq.stream) && (msgs != [] ==> |bq.stream| < |Frame(msgs[0])|)
  {
    hide Queue.Valid, Wire, IsFirstDelim, NoDelim;
    ghost var was := bq.stream;
    var msg;
    found, msg := WorkerIoc2msg(bq);
    if !found {
      if msgs != [] { NotYetWhole(msgs, was, rest); }
      return false, [];
    }
    ReceivedIsFirst(msgs, was, rest, msg, bq.stream);
    kvs := Parse(msg, copy, msgs[0]);
  }

  /** Without a delimiter in it, what has arrived is less than the first frame. */
  lemma NotYetWhole(msgs: seq<seq<KeyValue>>, was: seq<Byte>, rest: seq<Byte>)
    requires msgs != [] && Sendable(msgs[0]) && was + rest == Wire(msgs) && NoDelim(was, MSG_DELIM, 0, |was|)
    ensures |was| < |Frame(msgs[0])|
  {
    FirstDelimOfPart(msgs[0], Wire(msgs[1..]), was);
  }

  lemma FirstMessage(msgs: seq<seq<KeyValue>>)
    requires |Wire(msgs)| > 0
    ensures msgs != [] && Wire(msgs) == Frame(msgs[0]) + Wire(msgs[1..]) && Frame(msgs[0]) == Body(msgs[0]) + MSG_DELIM
  {
  }

  lemma ReceivedIsFirst(msgs: seq<seq<KeyValue>>, was: seq<Byte>, rest: seq<Byte>, msg: seq<Byte>, now: seq<Byte>)
    requires was + rest == Wire(msgs) && forall i :: 0 <= i < |msgs| ==> Sendable(msgs[i])
    requires was == msg + MSG_DELIM + now && IsFirstDelim(was, MSG_DELIM, |msg|)
    ensures msgs != [] && msg == Body(msgs[0]) && now + rest == Wire(msgs[1..])
  {
    assert |was + rest| >= 4;
    FirstMessage(msgs);
    var w1, body := Wire(msgs[1..]), Body(msgs[0]);
    assert Sendable(msgs[0]);
    hide Wire, Frame, Body, Encode;
    FirstDelimOfPart(msgs[0], w1, was);
    hide IsFirstDelim, DelimAt;
    assert was[..|msg|] == msg;
    Associative(body + MSG_DELIM, now, rest);
    Cancel(body + MSG_DELIM, now + rest, w1);
  }

  lemma Cancel(f: seq<Byte>, a: seq<Byte>, b: seq<Byte>)
    requires f + a == f + b
    ensures a == b
  {
    assert (f + a)[|f|..] == a && (f + b)[|f|..] == b;
  }

  /** Parses the bytes of one message into a new vector. */
  method Parse(msg: seq<Byte>, copy: bool, ghost sent: seq<KeyValue>) returns (kvs: seq<KeyValue>)
    requires msg == Body(sent) && Sendable(sent)
    ensures kvs == sent
  {
    var str := new Byte[|msg|](k requires 0 <= k < |msg| => msg[k]);
    assert str[..|msg|] == msg;
    var vec := new Vector(|msg| / 20);
    var ret := FromBuf(vec, str, |msg|, KV_SEP, PAIR_SEP, copy, sent);
    kvs := vec.kv[..vec.pairs];
  }

  /** The next n bytes of the wire arrive. */
  method DeliverSome(bq: Queue, wire: seq<Byte>, delivered: nat, n: nat) returns (now: nat)
    requires bq.Valid() && delivered <= |wire|
    modifies bq, bq.repr
    ensures bq.Valid() && fresh(bq.repr - old(bq.repr))
    ensures now == (if n <= |wire| - delivered then delivered + n else |wire|)
    ensures bq.stream + wire[now..] == old(bq.stream) + wire[delivered..]
  {
    now := if n <= |wire| - delivered then delivered + n else |wire|;
    var chunk := wire[delivered..now];
    assert wire[delivered..] == chunk + wire[now..];
    Associative(bq.stream, chunk, wire[now..]);
    bq.PushBlock(chunk);
  }

  /** One attempt to receive, added to what has been received. */
  method ReceiveNext(bq: Queue, copy: bool, received: seq<seq<KeyValue>>, ghost msgs: seq<seq<KeyValue>>,
                     ghost rest: seq<Byte>) returns (now: seq<seq<KeyValue>>)
    requires bq.Valid() && received <= msgs && bq.stream + rest == Wire(msgs[|received|..])
    requires forall i :: 0 <= i < |msgs| ==> Sendable(msgs[i])
    modifies bq, bq.repr
    ensures bq.Valid() && bq.repr == old(bq.repr) && now <= msgs && bq.stream + rest == Wire(msgs[|now|..])
    ensures |now| == |received| + if |received| < |msgs| && |Frame(msgs[|received|])| <= |old(bq.stream)| then 1 else 0
  {
    hide Wire, Frame, Sendable, Queue.Valid;
    ghost var left := msgs[|received|..];
    var found, kvs := ReceiveOne(bq, copy, left, rest);
    if found {
      WireBegins(left);
      assert left[1..] == msgs[|received| + 1..];
      return received + [kvs];
    }
    return received;
  }

  lemma WireBegins(msgs: seq<seq<KeyValue>>)
    requires msgs != []
    ensures |Wire(msgs)| == |Frame(msgs[0])| + |Wire(msgs[1..])|
  {
  }

  /** The receiving end: the wire is delivered in chunks of any size, with attempts to
      receive at any time.  What is received follows from the steps alone. */
  method Carry(wire: seq<Byte>, steps: seq<Step>, copy: bool, ghost msgs: seq<seq<KeyValue>>)
    returns (received: seq<seq<KeyValue>>, delivered: nat)
    requires wire == Wire(msgs) && forall i :: 0 <= i < |msgs| ==> Sendable(msgs[i])
    ensures var r := After(msgs, steps); delivered == r.delivered && received == msgs[..r.count]
    ensures delivered == Min(Brought(steps), |wire|)
    ensures Brought(steps) >= |wire| && Trailing(steps) >= |msgs| ==> received == msgs
  {
    hide Wire, Frame, Body, Sendable, Encodable, Queue.Valid, After;
    var bq := new Queue();
    received, delivered := [], 0;
    NothingYet(msgs);
    for i := 0 to |steps|
      invariant var r := After(msgs, steps[..i]); delivered == r.delivered && |received| == r.count && received <= msgs
      invariant bq.Valid() && fresh(bq) && fresh(bq.repr)
      invariant bq.stream + wire[delivered..] == Wire(msgs[|received|..])
    {
      OneMoreStep(msgs, steps, i);
      WireSplits(msgs, |received|);
      match steps[i]
      case Deliver(n) => delivered := DeliverSome(bq, wire, delivered, n);
      case Receive => received := ReceiveNext(bq, copy, received, msgs, wire[delivered..]);
    }
    assert steps[..|steps|] == steps;
    AllArrive(msgs, steps);
  }

  lemma NothingYet(msgs: seq<seq<KeyValue>>)
    ensures After(msgs, []) == Reception(0, 0)
  {
  }

  lemma OneMoreStep(msgs: seq<seq<KeyValue>>, steps: seq<Step>, i: nat)
    requires i < |steps|
    ensures var p, r := After(msgs, steps[..i]), After(msgs, steps[..i + 1]);
            if steps[i].Deliver? then r == p.(delivered := Min(p.delivered + steps[i].n, |Wire(msgs)|))
            else if p.count < |msgs| && |Wire(msgs[..p.count + 1])| <= p.delivered then r == p.(count := p.count + 1)
            else r == p
  {
    hide Wire;
    assert steps[..i + 1][..i] == steps[..i];
  }

  /** The whole path.  Each message is built, put on the wire and carried over.  What is
      received is exactly the messages that had arrived when they were asked for, unchanged
      and in order: all of them once the wire has been delivered and there are as many
      attempts as messages behind it. */
  method Transfer(vectors: seq<Vector>, steps: seq<Step>, copy: bool)
    returns (received: seq<seq<KeyValue>>, delivered: nat, wire: seq<Byte>)
    requires AllSendable(vectors)
    ensures AllSendable(vectors) && wire == Wire(AllContents(vectors)) && delivered == Min(Brought(steps), |wire|)
    ensures received == AllContents(vectors)[..After(AllContents(vectors), steps).count]
    ensures Brought(steps) >= |wire| && Trailing(steps) >= |vectors| ==> received == AllContents(vectors)
  {
    hide Wire, Sendable, After;
    ghost var msgs;
    wire, msgs := BuildWire(vectors);
    assert msgs == AllContents(vectors);
    received, delivered := Carry(wire, steps, copy, msgs);
  }
}
