/** The chunked byte queue under all inter-process messages: a linked list of
    blocks that stands for one flat stream of bytes. */
module BufferQueue {
  import opened Basics
  import opened Bytes

  /** A delimiter starts at position k of a stream. */
  ghost predicate DelimAt(s: seq<Byte>, delim: seq<Byte>, k: int) {
    0 <= k && k + |delim| <= |s| && s[k..k + |delim|] == delim
  }

  ghost predicate IsFirstDelim(s: seq<Byte>, delim: seq<Byte>, k: int) {
    DelimAt(s, delim, k) && forall j :: 0 <= j < k ==> !DelimAt(s, delim, j)
  }

  ghost predicate NoDelim(s: seq<Byte>, delim: seq<Byte>, lo: nat, hi: nat) {
    forall k :: lo <= k < hi ==> !DelimAt(s, delim, k)
  }

  lemma DelimStarts(s: seq<Byte>, delim: seq<Byte>, k: nat)
    requires DelimAt(s, delim, k) && delim != []
    ensures s[k] == delim[0]
  {
    assert s[k..k + |delim|][0] == s[k];
  }

  lemma NoDelimJoins(s: seq<Byte>, delim: seq<Byte>, lo: nat, mid: nat, hi: nat)
    requires NoDelim(s, delim, lo, mid) && NoDelim(s, delim, mid, hi)
    ensures NoDelim(s, delim, lo, hi)
    ensures DelimAt(s, delim, hi) && lo == 0 ==> IsFirstDelim(s, delim, hi)
  {
  }

  lemma GrowMatch(s: seq<Byte>, delim: seq<Byte>, at: nat, m: nat)
    requires at + m < |s| && m < |delim| && s[at..at + m] == delim[..m] && s[at + m] == delim[m]
    ensures s[at..at + m + 1] == delim[..m + 1]
  {
    assert s[at..at + m + 1] == s[at..at + m] + [s[at + m]];
    assert delim[..m + 1] == delim[..m] + [delim[m]];
  }

  type Errno = e: int | e > 0 witness 1

  /** What one call of write(2) may answer. */
  datatype WriteResult = Sent(n: nat) | Interrupted | WouldBlock | Failed(errno: Errno)

  /** The next answer to an offer of so many bytes. */
  function Answered(answers: seq<WriteResult>, len: nat): WriteResult {
    if answers == [] then WouldBlock
    else if answers[0].Sent? then Sent(Min(answers[0].n, len))
    else answers[0]
  }

  /** A file descriptor.  Its answers to come are the adversary's: any mix of short writes,
      interruptions and refusals, and a refusal once they run out. */
  class Descriptor {
    const number: int
    ghost var accepted: seq<Byte>   // all bytes it has taken, in order
    var answers: seq<WriteResult>

    constructor (number: int, answers: seq<WriteResult>)
      ensures this.number == number && this.answers == answers && accepted == []
    {
      this.number, this.answers, accepted := number, answers, [];
    }

    /** write(2): at most what is offered is taken. */
    method Write(buf: seq<Byte>) returns (answer: WriteResult)
      modifies this
      ensures answer == Answered(old(answers), |buf|)
      ensures answers == if old(answers) == [] then [] else old(answers)[1..]
      ensures accepted == old(accepted) + if answer.Sent? then Slice(buf, 0, answer.n) else []
    {
      answer := Answered(answers, |buf|);
      answers := if answers == [] then [] else answers[1..];
      accepted := accepted + if answer.Sent? then Slice(buf, 0, answer.n) else [];
    }
  }

  /** What writing comes to: the bytes taken, the answers not asked for, and the error that
      ended it, or zero. */
  datatype Drain = Drain(count: nat, answers: seq<WriteResult>, error: nat)

  /** Writing blocks with so many bytes left in each, until none is left or an answer ends it. */
  ghost function Drained(rests: seq<nat>, answers: seq<WriteResult>): Drain
    decreases |answers|
  {
    if rests == [] || answers == [] then Drain(0, answers, 0)
    else
      match answers[0]
      case Interrupted => Drained(rests, answers[1..])
      case WouldBlock => Drain(0, answers[1..], 0)
      case Failed(errno) => Drain(0, answers[1..], errno)
      case Sent(n) =>
        var k := Min(n, rests[0]);
        var d := Drained(Shorter(rests, k), answers[1..]);
        d.(count := k + d.count)
  }

  lemma DrainedStep(rests: seq<nat>, answers: seq<WriteResult>)
    requires rests != []
    ensures var answer, d := Answered(answers, rests[0]), Drained(rests, answers);
            if answer.WouldBlock? then d == Drain(0, if answers == [] then [] else answers[1..], 0)
            else if answer.Failed? then answers != [] && d == Drain(0, answers[1..], answer.errno)
            else
              && answers != []
              && (answer.Interrupted? ==> d == Drained(rests, answers[1..]))
              && (answer.Sent? ==>
                    var e := Drained(Shorter(rests, answer.n), answers[1..]); d == e.(count := answer.n + e.count))
  {
  }

  lemma NoneLeft(answers: seq<WriteResult>)
    ensures Drained([], answers) == Drain(0, answers, 0)
  {
  }

  /** What is left in each block when some bytes of the first one are gone. */
  ghost function Shorter(rests: seq<nat>, k: nat): seq<nat>
    requires rests != []
  {
    if k < rests[0] then [rests[0] - k] + rests[1..] else rests[1..]
  }

  ghost function Total(rests: seq<nat>): nat {
    if rests == [] then 0 else rests[0] + Total(rests[1..])
  }

  lemma ShorterTotal(rests: seq<nat>, k: nat)
    requires rests != [] && k <= rests[0]
    ensures Total(Shorter(rests, k)) == Total(rests) - k
    ensures k == rests[0] ==> Shorter(rests, k) == rests[1..]
    ensures k < rests[0] ==> |Shorter(rests, k)| == |rests| && Shorter(rests, k)[0] == rests[0] - k
  {
    if k < rests[0] { assert ([rests[0] - k] + rests[1..])[1..] == rests[1..]; }
  }

  /** How writing ends: never with more taken than there was; and with less only when an answer
      said so, the last one used up, or when the answers ran out.  What comes before it are
      interruptions and bytes sent. */
  lemma {:induction false} DrainedEnds(rests: seq<nat>, answers: seq<WriteResult>)
    ensures var d := Drained(rests, answers);
            var used := |answers| - |d.answers|;
            && d.count <= Total(rests) && 0 <= used && d.answers == answers[used..]
            && (forall i :: 0 <= i < used - 1 ==> answers[i].Sent? || answers[i].Interrupted?)
            && (d.error != 0 ==> used > 0 && answers[used - 1] == Failed(d.error))
            && (used > 0 && answers[used - 1].Failed? ==> d.error == answers[used - 1].errno)
            && (d.count < Total(rests) ==>
                  d.answers == [] || (used > 0 && (answers[used - 1].WouldBlock? || answers[used - 1].Failed?)))
    decreases |answers|
  {
    hide Shorter;
    if rests != [] && answers != [] && (answers[0].Interrupted? || answers[0].Sent?) {
      var k := if answers[0].Sent? then Min(answers[0].n, rests[0]) else 0;
      var more := if answers[0].Sent? then Shorter(rests, k) else rests;
      ShorterTotal(rests, k);
      DrainedEnds(more, answers[1..]);
      var d := Drained(more, answers[1..]);
      var used := |answers| - |d.answers|;
      assert d.answers == answers[used..];
      assert forall i :: 1 <= i < used ==> answers[i] == answers[1..][i - 1];
    }
  }

  /** An interruption makes no difference: the same bytes are offered again. */
  lemma {:induction false} InterruptionsDoNotMatter(rests: seq<nat>, answers: seq<WriteResult>, k: nat)
    requires k <= |answers| && rests != []
    requires forall i :: 0 <= i < k ==> answers[i].Interrupted?
    ensures Drained(rests, answers) == Drained(rests, answers[k..])
    decreases k
  {
    if k > 0 {
      InterruptionsDoNotMatter(rests, answers[1..], k - 1);
      assert answers[1..][k - 1..] == answers[k..];
    } else {
      assert answers[0..] == answers;
    }
  }

  /** Answers that take at least a whole block each: one for every block empties the queue. */
  lemma {:induction false} AllTaken(rests: seq<nat>, answers: seq<WriteResult>)
    requires |answers| >= |rests|
    requires forall i :: 0 <= i < |rests| ==> answers[i].Sent? && answers[i].n >= rests[i]
    ensures Drained(rests, answers) == Drain(Total(rests), answers[|rests|..], 0)
    decreases |rests|
  {
    if rests == [] {
      assert answers[0..] == answers;
    } else {
      ShorterTotal(rests, rests[0]);
      AllTaken(rests[1..], answers[1..]);
      assert answers[1..][|rests| - 1..] == answers[|rests|..];
    }
  }

  /** One block, answers that take some of it each: all they take, up to all there is. */
  lemma {:induction false} OneBlockTaken(rest: nat, answers: seq<WriteResult>)
    requires forall i :: 0 <= i < |answers| ==> answers[i].Sent?
    ensures Drained([rest], answers).count == Min(rest, Offers(answers))
    decreases |answers|
  {
    if answers != [] {
      var k := Min(answers[0].n, rest);
      if k < rest {
        assert Shorter([rest], k) == [rest - k];
        OneBlockTaken(rest - k, answers[1..]);
      } else {
        assert Shorter([rest], k) == [];
      }
    }
  }

  ghost function Offers(answers: seq<WriteResult>): nat {
    if answers == [] then 0 else (if answers[0].Sent? then answers[0].n else 0) + Offers(answers[1..])
  }

  /** A queued block: the bytes are fixed once queued, the read offset moves. */
  class Block {
    const data: seq<Byte>
    ghost const number: nat   // how many blocks were queued before it
    var offset: nat
    var next: Block?

    constructor (data: seq<Byte>, ghost number: nat)
      ensures this.data == data && this.number == number && offset == 0 && next == null
    {
      this.data, this.number := data, number;
      offset, next := 0, null;
    }
  }

  /** The bytes of a run of blocks, offsets ignored. */
  ghost function Concat(bs: seq<Block>): seq<Byte> {
    if bs == [] then [] else bs[0].data + Concat(bs[1..])
  }

  ghost function Nth(bs: seq<Block>, i: nat): Block? {
    if i < |bs| then bs[i] else null
  }

  ghost function Sizes(bs: seq<Block>): (sizes: seq<nat>)
    ensures |sizes| == |bs|
  {
    if bs == [] then [] else [|bs[0].data|] + Sizes(bs[1..])
  }

  lemma {:induction false} ConcatAppend(xs: seq<Block>, bs: seq<Block>)
    ensures Concat(xs + bs) == Concat(xs) + Concat(bs)
  {
    if xs == [] {
      assert xs + bs == bs;
    } else {
      ConcatAppend(xs[1..], bs);
      assert (xs + bs)[1..] == xs[1..] + bs;
      Associative(xs[0].data, Concat(xs[1..]), Concat(bs));
    }
  }

  lemma ConcatOne(b: Block)
    ensures Concat([b]) == b.data
  {
    assert Concat([b]) == b.data + Concat([]);
  }

  lemma ConcatOneMore(bs: seq<Block>, b: Block, k: nat)
    requires k <= |Concat(bs)|
    ensures |Concat(bs + [b])| == |Concat(bs)| + |b.data|
    ensures Concat(bs + [b])[k..] == Concat(bs)[k..] + b.data
  {
    ConcatAppend(bs, [b]);
    ConcatOne(b);
  }

  /** Where the i-th block starts in the bytes of all blocks. */
  ghost function Start(bs: seq<Block>, i: nat): nat
    requires i <= |bs|
  {
    |Concat(bs[..i])|
  }

  lemma BlockAt(bs: seq<Block>, i: nat)
    requires i < |bs|
    ensures Start(bs, i + 1) == Start(bs, i) + |bs[i].data| <= |Concat(bs)|
    ensures Concat(bs)[Start(bs, i)..Start(bs, i + 1)] == bs[i].data
    ensures i == |bs| - 1 ==> Start(bs, i + 1) == |Concat(bs)|
  {
    hide Concat;
    var xs, cs := bs[..i], bs[i + 1..];
    ConcatAppend(xs, [bs[i]]);
    ConcatAppend(xs + [bs[i]], cs);
    assert bs[..i + 1] == xs + [bs[i]] && bs == xs + [bs[i]] + cs;
    ConcatOne(bs[i]);
    if i == |bs| - 1 { assert bs[..i + 1] == bs; }
  }

  /** A piece of one block is a piece of the whole. */
  lemma InBlock(bs: seq<Block>, i: nat, from: nat, n: nat)
    requires i < |bs| && from + n <= |bs[i].data|
    ensures Start(bs, i) + from + n <= |Concat(bs)|
    ensures Concat(bs)[Start(bs, i) + from..Start(bs, i) + from + n] == bs[i].data[from..from + n]
  {
    BlockAt(bs, i);
    SliceOfSlice(Concat(bs), Start(bs, i), Start(bs, i + 1), from, from + n);
  }

  lemma ConcatSuffix(bs: seq<Block>, i: nat)
    requires i <= |bs|
    ensures Start(bs, i) <= |Concat(bs)| && Concat(bs[i..]) == Concat(bs)[Start(bs, i)..]
  {
    ConcatAppend(bs[..i], bs[i..]);
    assert bs == bs[..i] + bs[i..];
  }

  class Queue {
    var front: Block?
    var back: Block?
    var available: nat
    ghost var stream: seq<Byte>   // the flat stream the queue stands for
    ghost var blocks: seq<Block>
    ghost var dropped: nat        // how many blocks have left the queue
    ghost var repr: set<Block>

    ghost predicate Linked()
      reads this`front, this`back, this`blocks, this`dropped, this`repr, repr
    {
      && (forall i :: 0 <= i < |blocks| ==> blocks[i] in repr && blocks[i].number == dropped + i)
      && (forall i :: 0 <= i < |blocks| ==> blocks[i].next == Nth(blocks, i + 1))
      && (front == Nth(blocks, 0))
      && (back == if blocks == [] then null else blocks[|blocks| - 1])
      && (forall i :: 0 <= i < |blocks| ==> blocks[i].offset < |blocks[i].data|)
      && (forall i :: 0 < i < |blocks| ==> blocks[i].offset == 0)
    }

    ghost function Skipped(): nat
      reads this`front, front
    {
      if front == null then 0 else front.offset
    }

    /** How many bytes are left to read in each block. */
    ghost function Rests(): (rests: seq<nat>)
      reads this`front, this`blocks, front
      ensures |rests| == |blocks|
    {
      if blocks == [] then [] else [Left(blocks[0].data, Skipped())] + Sizes(blocks[1..])
    }

    static ghost function Left(data: seq<Byte>, skipped: nat): nat {
      if skipped <= |data| then |data| - skipped else 0
    }

    ghost predicate Valid()
      reads this, repr
    {
      && Linked()
      && (front != null ==> front in repr)
      && Skipped() <= |Concat(blocks)|
      && stream == Concat(blocks)[Skipped()..]
      && available == |stream|
    }

    constructor ()
      ensures Valid() && blocks == [] && stream == [] && repr == {}
    {
      front, back, available, dropped := null, null, 0, 0;
      blocks, stream, repr := [], [], {};
    }

    /** Links a new block behind the last one. */
    method Link(buf: seq<Byte>) returns (buffer: Block)
      requires Linked() && buf != []
      modifies this`front, this`back, this`blocks, this`repr, back
      ensures Linked() && blocks == old(blocks) + [buffer] && Skipped() == old(Skipped())
      ensures buffer.data == buf && fresh(buffer) && repr == old(repr) + {buffer} && front in repr
    {
      hide Concat, Start;
      buffer := new Block(buf, dropped + |blocks|);
      if front == null {
        front, back := buffer, buffer;
        blocks, repr := [buffer], repr + {buffer};
      } else {
        Append(buffer);
      }
    }

    method Append(buffer: Block)
      requires Linked() && front != null && buffer !in blocks && buffer.number == dropped + |blocks|
      requires buffer.data != [] && buffer.offset == 0 && buffer.next == null
      modifies this`back, this`blocks, this`repr, back
      ensures Linked() && blocks == old(blocks) + [buffer] && repr == old(repr) + {buffer} && front in repr
      ensures Skipped() == old(Skipped())
    {
      hide Concat;
      ghost var was := blocks;
      assert forall i :: 0 <= i < |was| - 1 ==> was[i] != back;
      back.next := buffer;
      back := buffer;
      blocks, repr := was + [buffer], repr + {buffer};
      assert Nth(blocks, |was|) == buffer && Nth(blocks, |blocks|) == null;
      forall i | 0 <= i < |was|
        ensures blocks[i] == was[i] && was[i] in repr && was[i].offset == old(was[i].offset)
        ensures was[i].next == Nth(blocks, i + 1)
      {
        assert old(was[i].next) == Nth(was, i + 1) && was[i] in old(repr);
      }
    }

    method PushBlock(buf: seq<Byte>)
      requires Valid()
      modifies this, repr
      ensures Valid() && stream == old(stream) + buf && fresh(repr - old(repr))
    {
      hide Queue.Linked, Concat;
      Back();
      if |buf| == 0 {
        return;
      }
      var buffer := Link(buf);
      ConcatOneMore(old(blocks), buffer, Skipped());
      available, stream := available + |buf|, stream + buf;
    }

    lemma Back()
      requires Linked()
      ensures back != null ==> back in repr
    {
    }

    /** The i-th block's bytes start at this point of the stream, or before it
        if some of them have been read. */
    ghost predicate Placed(i: nat, org: int)
      reads this`front, this`blocks, front
      requires i <= |blocks|
    {
      org + Skipped() == Start(blocks, i)
    }

    /** What the queue knows about n bytes of its i-th block. */
    lemma AtBlock(i: nat, org: int, from: nat, n: nat)
      requires Valid() && i < |blocks| && Placed(i, org)
      requires 0 <= org + from && from + n <= |blocks[i].data|
      ensures org + from + n <= |stream|
      ensures Slice(stream, 0, org + from + n) == Slice(stream, 0, org + from) + Slice(blocks[i].data, from, n)
    {
      InBlock(blocks, i, from, n);
      SliceOfTail(Concat(blocks), Skipped(), org + from, org + from + n);
      assert stream[org + from..org + from + n] == blocks[i].data[from..from + n];
    }

    /** What comes after the i-th block. */
    lemma AfterBlock(i: nat, org: int)
      requires Valid() && i < |blocks| && Placed(i, org)
      ensures blocks[i].data != [] && blocks[i].next == Nth(blocks, i + 1)
      ensures Placed(i + 1, org + |blocks[i].data|)
      ensures i + 1 < |blocks| ==> blocks[i + 1].offset == 0 && blocks[i + 1].data != []
      ensures i + 1 == |blocks| ==> org + |blocks[i].data| == |stream|
    {
      BlockAt(blocks, i);
    }

    /** Reading in order has come to the start of the unread part of the i-th block. */
    ghost predicate Here(block: Block?, i: nat, at: nat)
      reads this, repr, front, block
      requires i <= |blocks|
    {
      && block == Nth(blocks, i)
      && (if block == null then at == |stream|
          else block.offset < |block.data| && Placed(i, at - block.offset) && at < |stream|)
    }

    /** Reading a whole block leads to the next one. */
    lemma NextBlock(block: Block, i: nat, at: nat, left: nat)
      requires Valid() && i <= |blocks| && Here(block, i, at) && left == |block.data| - block.offset
      ensures i < |blocks| && at + left <= |stream| && Here(block.next, i + 1, at + left)
      ensures Slice(stream, 0, at + left) == Slice(stream, 0, at) + Slice(block.data, block.offset, left)
    {
      AfterBlock(i, at - block.offset);
      AtBlock(i, at - block.offset, block.offset, left);
      if i + 1 < |blocks| {
        AtBlock(i + 1, at + left, 0, 1);
      }
    }

    /** Reading a part of a block. */
    lemma PartOfBlock(block: Block, i: nat, at: nat, left: nat)
      requires Valid() && i <= |blocks| && Here(block, i, at) && left <= |block.data| - block.offset
      ensures at + left <= |stream|
      ensures Slice(stream, 0, at + left) == Slice(stream, 0, at) + Slice(block.data, block.offset, left)
    {
      AtBlock(i, at - block.offset, block.offset, left);
    }

    /** Copies the first bytes of the stream without removing them. */
    method Peek(size: nat) returns (ret: int, buffer: seq<Byte>)
      requires Valid()
      ensures ret == if size <= |stream| then 0 else -1
      ensures buffer == if size <= |stream| then Slice(stream, 0, size) else []
    {
      hide Queue.Valid, Queue.Linked, Queue.Placed, Concat;
      Front();
      if available < size {
        return -1, [];
      }
      if size == 0 {
        return 0, [];
      }
      var left: nat, current := size, front;
      ghost var i: nat, at: nat := 0, 0;
      buffer := [];
      while |current.data| - current.offset <= left
        invariant current != null && i <= |blocks| && Here(current, i, at)
        invariant at + left == size <= |stream| && buffer == Slice(stream, 0, at)
        decreases |blocks| - i
      {
        var leftInBuffer := |current.data| - current.offset;
        NextBlock(current, i, at, leftInBuffer);
        buffer := buffer + Slice(current.data, current.offset, leftInBuffer);
        left, current := left - leftInBuffer, current.next;
        i, at := i + 1, at + leftInBuffer;
        if current == null {
          if left == 0 {
            return 0, buffer;
          } else {
            assert false;  // the error return here cannot be reached
          }
        }
      }
      if left != 0 {
        PartOfBlock(current, i, at, left);
        buffer := buffer + Slice(current.data, current.offset, left);
      }
      return 0, buffer;
    }

    /** The queue is empty exactly when the stream is; else its first block has something to read. */
    lemma Front()
      requires Valid()
      ensures front == null <==> stream == []
      ensures front != null ==> front in repr && front.offset < |front.data| <= front.offset + |stream|
      ensures front != null ==> blocks != [] && front == blocks[0] && Placed(0, 0 - front.offset)
      ensures Here(front, 0, 0) && available == |stream|
      ensures if front == null then Rests() == [] else Rests() != [] && Rests()[0] == |front.data| - front.offset > 0
    {
      if front != null { AtBlock(0, 0 - front.offset, front.offset, |front.data| - front.offset); }
    }

    /** Frees the first block. */
    method PopBlock()
      requires Valid() && front != null
      modifies this`front, this`back, this`available, this`stream, this`blocks, this`dropped
      ensures Valid()
      ensures old(front.offset) <= |old(front).data| <= old(front.offset + |stream|)
      ensures stream == old(stream[|front.data| - front.offset..])
      ensures old(Rests()) != [] && Rests() == old(Rests())[1..]
    {
      hide Queue.Linked, Concat;
      ghost var was := blocks;
      Front();
      AfterBlock(0, 0 - front.offset);
      ConcatSuffix(was, 1);
      DropDrop(Concat(was), Skipped(), |was[0].data| - Skipped());
      stream := stream[|was[0].data| - was[0].offset..];
      available := available - (|front.data| - front.offset);
      Unlink();
    }

    /** Takes the first block off the list. */
    method Unlink()
      requires Linked() && front != null
      modifies this`front, this`back, this`blocks, this`dropped
      ensures Linked() && blocks == old(blocks)[1..] && Skipped() == 0 && (front != null ==> front in repr)
    {
      ghost var was := blocks;
      front := front.next;
      if front == null {
        back := null;
      }
      blocks, dropped := was[1..], dropped + 1;
      forall i | 0 <= i < |blocks| ensures blocks[i].next == Nth(blocks, i + 1) && blocks[i].offset == 0 {
        assert blocks[i] == was[i + 1];
      }
    }

    /** Moves the read offset within the first block. */
    method Advance(n: nat)
      requires Valid() && front != null && front.offset + n < |front.data|
      modifies this`available, this`stream, front
      ensures Valid() && n <= old(|stream|) && stream == old(stream[n..])
      ensures old(Rests()) != [] && n < old(Rests())[0] && Rests() == Shorter(old(Rests()), n)
    {
      hide Queue.Linked, Concat;
      Front();
      DropDrop(Concat(blocks), Skipped(), n);
      Shift(n);
      available, stream := available - n, stream[n..];
    }

    method Shift(n: nat)
      requires Linked() && front != null && front.offset + n < |front.data|
      modifies front`offset
      ensures Linked() && front.offset == old(front.offset) + n
    {
      front.offset := front.offset + n;
    }

    /** Removes the first bytes of the stream. */
    method Drop(size: nat) returns (ret: int)
      requires Valid()
      modifies this, repr
      ensures Valid() && repr == old(repr)
      ensures ret == if size <= old(|stream|) then 0 else -1
      ensures stream == if ret == 0 then old(stream[size..]) else old(stream)
      ensures old(Rests()) != [] && size <= old(Rests())[0] ==> Rests() == Shorter(old(Rests()), size)
    {
      hide Queue.Linked, Concat;
      Front();
      if available < size {
        return -1;
      }
      if size == 0 {
        if front != null { assert [Rests()[0]] + Rests()[1..] == Rests(); }
        return 0;
      }
      var left: nat := size;
      while |front.data| - front.offset <= left
        invariant Valid() && front != null && front in repr && repr == old(repr)
        invariant front.offset < |front.data| && Rests() != [] && Rests()[0] == |front.data| - front.offset
        invariant left == size ==> Rests() == old(Rests())
        invariant size <= old(Rests())[0] && left < size ==> left == 0 && Rests() == Shorter(old(Rests()), size)
        invariant left <= size <= old(|stream|) && stream == old(stream)[size - left..]
        decreases left
      {
        left := left - (|front.data| - front.offset);
        PopBlock();
        Front();
        if front == null {
          if left == 0 {
            return 0;
          } else {
            assert false;  // the error return here cannot be reached
          }
        }
      }
      if left != 0 {
        Advance(left);
      }
      return 0;
    }

    /** Removes the first bytes of the stream and hands them over. */
    method Unshift(size: nat) returns (ret: int, buffer: seq<Byte>)
      requires Valid()
      modifies this, repr
      ensures Valid() && repr == old(repr)
      ensures ret == if size <= old(|stream|) then 0 else -1
      ensures ret == 0 ==> old(stream) == buffer + stream && |buffer| == size
      ensures ret != 0 ==> stream == old(stream) && buffer == []
    {
      ret, buffer := Peek(size);
      if ret == 0 {
        ret := Drop(size);
      }
    }

    /** One byte of a block is one byte of the stream. */
    lemma ByteAt(j: nat, org: int, k: nat)
      requires Valid() && j < |blocks| && Placed(j, org) && 0 <= org + k && k < |blocks[j].data|
      ensures org + k < |stream| && stream[org + k] == blocks[j].data[k]
    {
      AtBlock(j, org, k, 1);
      assert stream[org + k] == Slice(stream, 0, org + k + 1)[org + k];
      assert (Slice(stream, 0, org + k) + Slice(blocks[j].data, k, 1))[org + k] == Slice(blocks[j].data, k, 1)[0];
    }

    /** Compares a delimiter with the bytes from one position of the i-th block on,
        walking into the following blocks, which all start at offset zero. */
    method IsDelimMatch(block: Block, start: nat, delim: seq<Byte>, ghost i: nat, ghost org: int) returns (match_: bool)
      requires Valid() && i < |blocks| && blocks[i] == block && start < |block.data|
      requires Placed(i, org) && 0 <= org + start
      ensures match_ <==> DelimAt(stream, delim, org + start)
    {
      hide Valid, Concat, Linked, Placed;
      var buffer, position: int := block, start;
      ghost var j: nat, at: nat := i, org + start;
      var matches := 0;
      AtBlock(i, org, start, 0);
      while matches < |delim|
        invariant 0 <= matches <= |delim| && at + matches <= |stream|
        invariant j < |blocks| && blocks[j] == buffer
        invariant 0 <= position + matches <= |buffer.data|
        invariant Placed(j, at - position)
        invariant stream[at..at + matches] == delim[..matches]
      {
        if position + matches >= |buffer.data| {
          AfterBlock(j, at - position);
          if buffer.next == null {
            return false;
          }
          buffer := buffer.next;
          position := -matches;
          j := j + 1;
        }
        ByteAt(j, at - position, position + matches);
        if buffer.data[position + matches] != delim[matches] {
          return false;
        }
        GrowMatch(stream, delim, at, matches);
        matches := matches + 1;
      }
      return true;
    }

    /** Looks through what is left of the i-th block for the start of a delimiter. */
    method FindInBlock(block: Block, delim: seq<Byte>, ghost i: nat, ghost org: int) returns (ptr: int)
      requires Valid() && i < |blocks| && blocks[i] == block && |delim| >= 1 && block.offset < |block.data|
      requires Placed(i, org) && 0 <= org + block.offset
      ensures ptr == -1 || block.offset <= ptr < |block.data|
      ensures ptr == -1 ==> NoDelim(stream, delim, org + block.offset, org + |block.data|)
      ensures ptr != -1 ==> DelimAt(stream, delim, org + ptr) && NoDelim(stream, delim, org + block.offset, org + ptr)
    {
      hide Valid, Concat, Linked, Placed;
      var remains, buf := |block.data| - block.offset, block.offset;
      while remains > 0
        invariant 0 <= remains && block.offset <= buf && buf + remains == |block.data|
        invariant NoDelim(stream, delim, org + block.offset, org + buf)
      {
        ptr := Memchr(block.data, buf, remains, delim[0]);
        ghost var stop := if ptr == -1 then |block.data| else ptr;
        forall k | org + buf <= k < org + stop ensures !DelimAt(stream, delim, k) {
          ByteAt(i, org, k - org);
          if DelimAt(stream, delim, k) { DelimStarts(stream, delim, k); }
        }
        if ptr == -1 {
          break;
        }
        var matched := IsDelimMatch(block, ptr, delim, i, org);
        if matched {
          return;
        }
        var jump := 1 + ptr - buf;
        remains, buf := remains - jump, buf + jump;
      }
      return -1;
    }

    /** The search over all blocks: how many bytes up to the end of the first delimiter. */
    method FindDelim(delim: seq<Byte>) returns (found: bool, size: nat)
      requires Valid() && |delim| >= 1
      ensures found ==> size >= |delim| && IsFirstDelim(stream, delim, size - |delim|)
      ensures !found ==> size == |stream| && NoDelim(stream, delim, 0, |stream|)
    {
      hide Queue.Valid, Queue.Linked, Queue.Placed, Concat;
      size := 0;
      var block := front;
      ghost var i := 0;
      Front();
      while block != null
        invariant 0 <= i <= |blocks| && Here(block, i, size) && size <= |stream|
        invariant NoDelim(stream, delim, 0, size)
        decreases |blocks| - i
      {
        found, size := SearchBlock(block, delim, i, size);
        if found {
          return;
        }
        block := block.next;
        i := i + 1;
      }
      return false, size;
    }

    /** The search from the unread part of one block on, up to the next block. */
    method SearchBlock(block: Block, delim: seq<Byte>, ghost i: nat, size: nat) returns (found: bool, end: nat)
      requires Valid() && |delim| >= 1 && i <= |blocks| && Here(block, i, size) && size <= |stream|
      requires NoDelim(stream, delim, 0, size)
      ensures found ==> end >= |delim| && IsFirstDelim(stream, delim, end - |delim|)
      ensures !found ==> i < |blocks| && end <= |stream| && Here(block.next, i + 1, end)
      ensures !found ==> NoDelim(stream, delim, 0, end)
    {
      hide Queue.Valid, Queue.Linked, Concat, NoDelim, IsFirstDelim, DelimAt;
      var ptr := FindInBlock(block, delim, i, size - block.offset);
      ghost var next := if ptr == -1 then |block.data| else ptr;
      NoDelimJoins(stream, delim, 0, size, size - block.offset + next);
      if ptr != -1 {
        return true, size + (ptr - block.offset) + |delim|;
      }
      NextBlock(block, i, size, |block.data| - block.offset);
      return false, size + (|block.data| - block.offset);
    }

    /** Removes the shortest prefix of the stream that ends in the delimiter and
        hands it over; leaves the queue alone when there is none. */
    method UnshiftToDelim(delim: seq<Byte>) returns (ret: int, buffer: seq<Byte>)
      requires Valid() && |delim| >= 1
      modifies this, repr
      ensures Valid() && repr == old(repr)
      ensures ret == 0 || ret == -1
      ensures ret == 0 ==> old(stream) == buffer + stream && |buffer| >= |delim|
      ensures ret == 0 ==> IsFirstDelim(old(stream), delim, |buffer| - |delim|)
      ensures ret == -1 ==> stream == old(stream) && buffer == [] && NoDelim(stream, delim, 0, |stream|)
    {
      if front == null {
        Front();
        return -1, [];
      }
      var found, size := FindDelim(delim);
      if !found {
        return -1, [];
      }
      ret, buffer := Unshift(size);
    }

    /** The unread bytes of the first block are the first of the stream. */
    lemma FrontBytes(n: nat)
      requires Valid() && front != null && n <= |front.data| - front.offset
      ensures n <= |stream| && Slice(front.data, front.offset, n) == stream[..n]
    {
      Front();
      PartOfBlock(front, 0, 0, n);
    }

    /** Writes the stream to a descriptor until it is empty or an answer ends it.  Every byte
        the descriptor takes leaves the queue, and no other; how many that are, which answers
        are used up and what is returned follow from the blocks and the answers alone. */
    method Write(out: Descriptor) returns (ret: int)
      requires Valid()
      modifies this, repr, out
      ensures Valid() && repr == old(repr)
      ensures old(out.accepted) <= out.accepted && old(out.accepted) + old(stream) == out.accepted + stream
      ensures var d := if out.number < 0 then Drain(0, old(out.answers), 1) else Drained(old(Rests()), old(out.answers));
              && |out.accepted| == |old(out.accepted)| + d.count && out.answers == d.answers
              && ret == if old(stream) == [] then 0 else if d.error != 0 then 0 - d.error else d.count
    {
      hide Queue.Valid, Queue.Linked, Concat, Queue.Rests, Drained, Shorter, Answered;
      var sent := 0;
      Front();
      if front == null {
        NoneLeft(out.answers);
        return 0;
      }
      if out.number < 0 {
        return -1;
      }
      ghost var whole := Drained(Rests(), out.answers);
      while front != null
        invariant Valid() && repr == old(repr) && (front == null <==> Rests() == [])
        invariant old(out.accepted) <= out.accepted && old(out.accepted) + old(stream) == out.accepted + stream
        invariant |out.accepted| == |old(out.accepted)| + sent
        invariant var d := Drained(Rests(), out.answers); whole == d.(count := sent + d.count)
        decreases |out.answers|, front != null
      {
        DrainedStep(Rests(), out.answers);
        var answer := WriteFront(out);
        if answer.WouldBlock? {
          return sent;
        } else if answer.Failed? {
          return 0 - answer.errno;
        } else if answer.Sent? {
          sent := sent + answer.n;
        }
      }
      NoneLeft(out.answers);
      return sent;
    }

    /** Offers the unread bytes of the first block and drops what is taken. */
    method WriteFront(out: Descriptor) returns (answer: WriteResult)
      requires Valid() && front != null
      modifies this, repr, out
      ensures Valid() && repr == old(repr) && (front == null <==> Rests() == [])
      ensures old(Rests()) != [] && answer == Answered(old(out.answers), old(Rests())[0])
      ensures out.answers == if old(out.answers) == [] then [] else old(out.answers)[1..]
      ensures Rests() == if answer.Sent? then Shorter(old(Rests()), answer.n) else old(Rests())
      ensures old(out.accepted) <= out.accepted && old(out.accepted) + old(stream) == out.accepted + stream
      ensures |out.accepted| == |old(out.accepted)| + if answer.Sent? then answer.n else 0
    {
      hide Queue.Valid, Queue.Linked, Concat, Queue.Rests, Shorter;
      Front();
      var len := |front.data| - front.offset;
      answer := out.Write(Slice(front.data, front.offset, len));
      if answer.Sent? {
        FrontBytes(answer.n);
        SplitAt(old(out.accepted), stream, answer.n);
        var _ := Drop(answer.n);
      }
      Front();
    }
  }

  type Delim = d: seq<Byte> | |d| >= 1 witness [0]

  /** One use of a queue by its owner. */
  datatype Op = Push(buf: seq<Byte>) | Send | Look(size: nat) | Take(size: nat) | TakeTo(delim: Delim) | Discard(size: nat)

  /** What a use answers. */
  datatype Outcome = Outcome(ret: int, bytes: seq<Byte>)

  /** What one use does to the stream, and what it answers. */
  ghost predicate IsStep(op: Op, before: seq<Byte>, o: Outcome, after: seq<Byte>) {
    match op
    case Push(buf) => o == Outcome(0, []) && after == before + buf
    case Send =>
      && |after| <= |before| && after == before[|before| - |after|..]
      && o.bytes == [] && (o.ret < 0 || o.ret == |before| - |after|)
    case Look(size) => after == before && o == if size <= |before| then Outcome(0, before[..size]) else Outcome(-1, [])
    case Take(size) =>
      if size <= |before| then after == before[size..] && o == Outcome(0, before[..size])
      else after == before && o == Outcome(-1, [])
    case TakeTo(delim) =>
      if NoDelim(before, delim, 0, |before|) then after == before && o == Outcome(-1, [])
      else before == o.bytes + after && o.ret == 0 && IsFirstDelim(before, delim, |o.bytes| - |delim|)
    case Discard(size) =>
      if size <= |before| then after == before[size..] && o == Outcome(0, [])
      else after == before && o == Outcome(-1, [])
  }

  /** A run of uses: the streams before, between and behind them. */
  ghost predicate IsRun(ops: seq<Op>, streams: seq<seq<Byte>>, outcomes: seq<Outcome>) {
    && |outcomes| == |ops| && |streams| == |ops| + 1
    && forall i :: 0 <= i < |ops| ==> IsStep(ops[i], streams[i], outcomes[i], streams[i + 1])
  }

  ghost function Pushed(ops: seq<Op>): seq<Byte> {
    if ops == [] then []
    else Pushed(ops[..|ops| - 1]) + if ops[|ops| - 1].Push? then ops[|ops| - 1].buf else []
  }

  /** What a use takes out of the stream. */
  ghost function Removed(op: Op, before: seq<Byte>, after: seq<Byte>): seq<Byte> {
    if op.Push? || op.Look? || |after| > |before| then [] else before[..|before| - |after|]
  }

  /** What a run takes out, and what of it went to the descriptor. */
  ghost function AllRemoved(ops: seq<Op>, streams: seq<seq<Byte>>): seq<Byte>
    requires |streams| == |ops| + 1
  {
    if ops == [] then []
    else
      var n := |ops| - 1;
      AllRemoved(ops[..n], streams[..n + 1]) + Removed(ops[n], streams[n], streams[n + 1])
  }

  ghost function AllSent(ops: seq<Op>, streams: seq<seq<Byte>>): seq<Byte>
    requires |streams| == |ops| + 1
  {
    if ops == [] then []
    else
      var n := |ops| - 1;
      AllSent(ops[..n], streams[..n + 1]) + if ops[n].Send? then Removed(ops[n], streams[n], streams[n + 1]) else []
  }

  lemma StepConserves(op: Op, before: seq<Byte>, o: Outcome, after: seq<Byte>)
    requires IsStep(op, before, o, after)
    ensures before + (if op.Push? then op.buf else []) == Removed(op, before, after) + after
  {
    hide NoDelim, IsFirstDelim;
  }

  /** Over any run of uses nothing is lost, repeated or reordered: what was in the queue and
      was pushed is what was removed and is still queued. */
  lemma {:induction false} Conserved(ops: seq<Op>, streams: seq<seq<Byte>>, outcomes: seq<Outcome>)
    requires IsRun(ops, streams, outcomes)
    ensures streams[0] + Pushed(ops) == AllRemoved(ops, streams) + streams[|ops|]
  {
    hide IsStep, Removed;
    if ops != [] {
      var n := |ops| - 1;
      Conserved(ops[..n], streams[..n + 1], outcomes[..n]);
      StepConserves(ops[n], streams[n], outcomes[n], streams[n + 1]);
      var pushed := if ops[n].Push? then ops[n].buf else [];
      Associative(streams[0], Pushed(ops[..n]), pushed);
      Associative(AllRemoved(ops[..n], streams[..n + 1]), streams[n], pushed);
      Associative(AllRemoved(ops[..n], streams[..n + 1]), Removed(ops[n], streams[n], streams[n + 1]), streams[n + 1]);
    }
  }

  /** Any run of uses of one queue and one descriptor. */
  method Run(q: Queue, ops: seq<Op>, out: Descriptor) returns (outcomes: seq<Outcome>, ghost streams: seq<seq<Byte>>)
    requires q.Valid()
    modifies q, q.repr, out
    ensures q.Valid() && fresh(q.repr - old(q.repr))
    ensures IsRun(ops, streams, outcomes) && streams[0] == old(q.stream) && streams[|ops|] == q.stream
    ensures out.accepted == old(out.accepted) + AllSent(ops, streams)
    ensures old(q.stream) + Pushed(ops) == AllRemoved(ops, streams) + q.stream
  {
    hide Queue.Valid, Queue.Linked, Concat, IsStep, Removed;
    outcomes, streams := [], [q.stream];
    for i := 0 to |ops|
      invariant q.Valid() && fresh(q.repr - old(q.repr))
      invariant IsRun(ops[..i], streams, outcomes) && streams[0] == old(q.stream) && streams[i] == q.stream
      invariant out.accepted == old(out.accepted) + AllSent(ops[..i], streams)
    {
      ghost var sent := out.accepted;
      var o := Use(q, ops[i], out);
      ghost var more := streams + [q.stream];
      assert ops[..i + 1][..i] == ops[..i] && more[..i + 1] == streams;
      outcomes, streams := outcomes + [o], more;
    }
    assert ops[..|ops|] == ops;
    Conserved(ops, streams, outcomes);
  }

  /** One use. */
  method Use(q: Queue, op: Op, out: Descriptor) returns (o: Outcome)
    requires q.Valid()
    modifies q, q.repr, out
    ensures q.Valid() && fresh(q.repr - old(q.repr)) && IsStep(op, old(q.stream), o, q.stream)
    ensures out.accepted == old(out.accepted) + if op.Send? then Removed(op, old(q.stream), q.stream) else []
  {
    hide Queue.Valid, Queue.Linked, Concat, Drained, Queue.Rests, NoDelim, IsFirstDelim, IsStep;
    ghost var was := q.stream;
    var ret, bytes := 0, [];
    match op {
      case Push(buf) =>
        q.PushBlock(buf);
        assert IsStep(op, was, Outcome(0, []), q.stream) by { IsPush(buf, was); }
      case Send =>
        ret := q.Write(out);
        IsSend(old(out.accepted), was, out.accepted, q.stream, ret);
      case Look(size) =>
        ret, bytes := q.Peek(size);
        IsLook(size, was, ret, bytes);
      case Take(size) =>
        ret, bytes := q.Unshift(size);
        IsTake(size, was, ret, bytes, q.stream);
      case TakeTo(delim) =>
        ret, bytes := q.UnshiftToDelim(delim);
        IsTakeTo(delim, was, ret, bytes, q.stream);
      case Discard(size) =>
        ret := q.Drop(size);
        IsDiscard(size, was, ret, q.stream);
    }
    o := Outcome(ret, bytes);
  }

  lemma IsPush(buf: seq<Byte>, was: seq<Byte>)
    ensures IsStep(Push(buf), was, Outcome(0, []), was + buf)
  {
  }

  lemma IsSend(a: seq<Byte>, was: seq<Byte>, b: seq<Byte>, now: seq<Byte>, ret: int)
    requires a <= b && a + was == b + now && (ret < 0 || ret == |b| - |a|)
    ensures IsStep(Send, was, Outcome(ret, []), now) && b == a + Removed(Send, was, now)
  {
    SentIs(a, was, b, now);
  }

  lemma IsLook(size: nat, was: seq<Byte>, ret: int, bytes: seq<Byte>)
    requires ret == (if size <= |was| then 0 else -1) && bytes == if size <= |was| then Slice(was, 0, size) else []
    ensures IsStep(Look(size), was, Outcome(ret, bytes), was)
  {
  }

  lemma IsTake(size: nat, was: seq<Byte>, ret: int, bytes: seq<Byte>, now: seq<Byte>)
    requires ret == if size <= |was| then 0 else -1
    requires if ret == 0 then was == bytes + now && |bytes| == size else now == was && bytes == []
    ensures IsStep(Take(size), was, Outcome(ret, bytes), now)
  {
    if ret == 0 { assert was[..size] == bytes && was[size..] == now; }
  }

  lemma IsTakeTo(delim: Delim, was: seq<Byte>, ret: int, bytes: seq<Byte>, now: seq<Byte>)
    requires ret == 0 || ret == -1
    requires ret == 0 ==> was == bytes + now && IsFirstDelim(was, delim, |bytes| - |delim|)
    requires ret == -1 ==> now == was && bytes == [] && NoDelim(was, delim, 0, |was|)
    ensures IsStep(TakeTo(delim), was, Outcome(ret, bytes), now)
  {
    hide IsFirstDelim, NoDelim;
    if ret == 0 {
      AtIsWithin(was, delim, |bytes| - |delim|);
      FirstIsOne(was, delim, |bytes| - |delim|);
    }
  }

  lemma IsDiscard(size: nat, was: seq<Byte>, ret: int, now: seq<Byte>)
    requires ret == (if size <= |was| then 0 else -1) && now == if ret == 0 then was[size..] else was
    ensures IsStep(Discard(size), was, Outcome(ret, []), now)
  {
  }

  lemma AtIsWithin(s: seq<Byte>, delim: seq<Byte>, k: int)
    requires IsFirstDelim(s, delim, k)
    ensures 0 <= k
  {
  }

  lemma FirstIsOne(s: seq<Byte>, delim: seq<Byte>, k: nat)
    requires IsFirstDelim(s, delim, k) && delim != []
    ensures !NoDelim(s, delim, 0, |s|)
  {
    assert DelimAt(s, delim, k);
  }

  lemma SentIs(a: seq<Byte>, s: seq<Byte>, b: seq<Byte>, t: seq<Byte>)
    requires a <= b && a + s == b + t
    ensures |t| <= |s| && |b| == |a| + (|s| - |t|)
    ensures b == a + s[..|s| - |t|] && t == s[|s| - |t|..]
  {
    var k := |b| - |a|;
    assert (a + s)[..|a| + k] == b && (a + s)[|a| + k..] == t;
    assert (a + s)[..|a| + k] == a + s[..k];
  }
}
