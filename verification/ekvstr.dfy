/** Key/value vectors as printable text: the escaped form, its printer and its
    parser.  Both work in two passes, one to size a buffer and one to fill it. */
module Ekvstr {
  import opened Bytes
  import opened KvVec

  const LETTER_X: Byte := 120

  /** table_escape: 0 for a byte that stands for itself, 1 for hex, else what follows the backslash. */
  function TableEscape(b: Byte): Byte {
    if b == 9 then 116 else if b == 10 then 110 else if b == 13 then 114
    else if b == SEMICOLON || b == EQUALS || b == BACKSLASH then b
    else if b < 32 || b >= 127 then 1
    else 0
  }

  /** table_unescape. */
  function TableUnescape(c: Byte): Byte {
    if c == 48 then 0 else if c == 110 then 10 else if c == 114 then 13 else if c == 116 then 9 else c
  }

  /** table_dehex: 255 for anything but a hex digit. */
  function TableDehex(c: Byte): Byte {
    if 48 <= c <= 57 then c - 48
    else if 65 <= c <= 70 then c - 55
    else if 97 <= c <= 102 then c - 87
    else 255
  }

  /** table_hex. */
  function TableHex(d: nat): Byte
    requires d < 16
  {
    if d < 10 then 48 + d else 87 + d
  }

  /** The byte that two hex digits stand for.  An entry of 255 is read as -1, so
      that a bad digit sets all the bits it is or-ed into. */
  function Dehex(hi: Byte, lo: Byte): Byte {
    if TableDehex(lo) == 255 then 255
    else if TableDehex(hi) == 255 then 240 + TableDehex(lo)
    else 16 * TableDehex(hi) + TableDehex(lo)
  }

  function EscapedByte(b: Byte): (e: seq<Byte>)
    ensures |e| > 0 && forall c :: c in e ==> 32 <= c <= 126
  {
    var c := TableEscape(b);
    if c == 0 then [b]
    else if c == 1 then [BACKSLASH, LETTER_X, TableHex(b / 16), TableHex(b % 16)]
    else [BACKSLASH, c]
  }

  /** The value of a hex digit, of either case. */
  ghost predicate IsHexDigit(c: Byte, d: nat) {
    (d < 10 && c == 48 + d) || (10 <= d < 16 && (c == 55 + d || c == 87 + d))
  }

  /** How each byte is written: tab, newline and return by their letters, what has a meaning
      behind a backslash, other printable bytes as they are, the rest as two small hex digits. */
  lemma EscapedForms(b: Byte)
    ensures b == 9 ==> EscapedByte(b) == [92, 116]
    ensures b == 10 ==> EscapedByte(b) == [92, 110]
    ensures b == 13 ==> EscapedByte(b) == [92, 114]
    ensures b == 59 || b == 61 || b == 92 ==> EscapedByte(b) == [92, b]
    ensures 32 <= b <= 126 && b != 59 && b != 61 && b != 92 ==> EscapedByte(b) == [b]
    ensures (b < 32 && b != 9 && b != 10 && b != 13) || b >= 127 ==>
              var e := EscapedByte(b);
              && |e| == 4 && e[0] == 92 && e[1] == 120 && !(65 <= e[2] <= 70) && !(65 <= e[3] <= 70)
              && IsHexDigit(e[2], b / 16) && IsHexDigit(e[3], b % 16)
  {
  }

  /** How an escape is read: the letters n, r and t, the digit 0 as the byte zero, and
      anything else but an x as itself. */
  lemma UnescapedForms(s: seq<Byte>, p: nat, endChar: Byte)
    requires NUL !in s && p + 1 < |s| && s[p] == 92 && endChar != 92
    ensures s[p + 1] == 110 ==> Next(s, p, endChar) == Item(10, p + 2)
    ensures s[p + 1] == 114 ==> Next(s, p, endChar) == Item(13, p + 2)
    ensures s[p + 1] == 116 ==> Next(s, p, endChar) == Item(9, p + 2)
    ensures s[p + 1] == 48 ==> Next(s, p, endChar) == Item(0, p + 2)
    ensures s[p + 1] !in {48, 110, 114, 116, 120} ==> Next(s, p, endChar) == Item(s[p + 1], p + 2)
  {
    assert forall k :: p <= k < |s| ==> s[k] in s;
  }

  /** Behind an x, two hex digits of either case are their byte; a text that ends there ends
      the string. */
  lemma UnescapedHex(s: seq<Byte>, p: nat, endChar: Byte)
    requires NUL !in s && p + 1 < |s| && s[p] == 92 && s[p + 1] == 120 && endChar != 92
    ensures p + 3 >= |s| ==> Next(s, p, endChar) == Stop(|s|)
    ensures p + 3 < |s| ==>
              Next(s, p, endChar).Item? && Next(s, p, endChar).next == p + 4
              && Next(s, p, endChar).byte == Dehex(s[p + 2], s[p + 3])
  {
    assert forall k :: p <= k < |s| ==> s[k] in s;
  }

  lemma HexDigits(hi: Byte, lo: Byte, d: nat, e: nat)
    requires IsHexDigit(hi, d) && IsHexDigit(lo, e)
    ensures d < 16 && e < 16 && Dehex(hi, lo) == 16 * d + e
  {
  }

  /** What is not a hex digit sets all the bits of its half; in the last place, of both. */
  lemma BadHexDigits(hi: Byte, lo: Byte, e: nat)
    ensures (forall d: nat :: !IsHexDigit(lo, d)) ==> Dehex(hi, lo) == 255
    ensures IsHexDigit(lo, e) && (forall d: nat :: !IsHexDigit(hi, d)) ==> Dehex(hi, lo) == 240 + e
  {
    if TableDehex(lo) != 255 { assert IsHexDigit(lo, TableDehex(lo)); }
    if TableDehex(hi) != 255 { assert IsHexDigit(hi, TableDehex(hi)); }
  }

  ghost function Escaped(s: seq<Byte>): (e: seq<Byte>)
    ensures forall c :: c in e ==> 32 <= c <= 126
  {
    if s == [] then [] else EscapedByte(s[0]) + Escaped(s[1..])
  }

  ghost function PairText(kv: KeyValue): (t: seq<Byte>)
    ensures |t| > 0 && forall c :: c in t ==> 32 <= c <= 126
  {
    Escaped(kv.key) + [EQUALS] + Escaped(kv.value)
  }

  lemma PairTextSize(kv: KeyValue)
    ensures |PairText(kv)| == |Escaped(kv.key)| + 1 + |Escaped(kv.value)|
  {
  }

  /** The text of a vector: its pairs, joined by semicolons. */
  ghost function Text(kvs: seq<KeyValue>): (t: seq<Byte>)
    ensures forall c :: c in t ==> 32 <= c <= 126
    ensures t == [] <==> kvs == []
  {
    if kvs == [] then []
    else if |kvs| == 1 then PairText(kvs[0])
    else PairText(kvs[0]) + [SEMICOLON] + Text(kvs[1..])
  }

  /** A byte string with nothing to escape. */
  ghost predicate IsPlain(s: seq<Byte>) {
    forall b :: b in s ==> 32 <= b <= 126 && b != 59 && b != 61 && b != 92
  }

  lemma {:induction false} PlainIsItself(s: seq<Byte>)
    requires IsPlain(s)
    ensures Escaped(s) == s
  {
    if s != [] {
      assert s[0] in s && forall b :: b in s[1..] ==> b in s;
      EscapedForms(s[0]);
      PlainIsItself(s[1..]);
    }
  }

  /** Two plain pairs: "k=v;l=w". */
  lemma PlainText(k: seq<Byte>, v: seq<Byte>, l: seq<Byte>, w: seq<Byte>)
    requires IsPlain(k) && IsPlain(v) && IsPlain(l) && IsPlain(w)
    ensures Text([KeyValue(k, v)]) == k + [61] + v
    ensures Text([KeyValue(k, v), KeyValue(l, w)]) == k + [61] + v + [59] + l + [61] + w
  {
    hide Escaped;
    PlainIsItself(k);
    PlainIsItself(v);
    PlainIsItself(l);
    PlainIsItself(w);
    assert [KeyValue(k, v), KeyValue(l, w)][1..] == [KeyValue(l, w)];
  }

  lemma {:induction false} EscapedNext(s: seq<Byte>, i: nat)
    requires i < |s|
    ensures Escaped(s[..i + 1]) == Escaped(s[..i]) + EscapedByte(s[i])
  {
    hide EscapedByte;
    if i == 0 {
      assert s[..1][1..] == [];
    } else {
      EscapedNext(s[1..], i - 1);
      assert s[..i + 1][1..] == s[1..][..i] && s[..i][1..] == s[1..][..i - 1];
    }
  }

  lemma {:induction false} EscapedIsLonger(s: seq<Byte>, i: nat)
    requires i <= |s|
    ensures |Escaped(s[..i])| <= |Escaped(s)|
  {
    if i > 0 {
      EscapedIsLonger(s[1..], i - 1);
      assert s[..i][1..] == s[1..][..i - 1];
    }
  }

  /** The text as the printer writes it: with a semicolon behind every pair. */
  ghost function Terminated(kvs: seq<KeyValue>): seq<Byte> {
    if kvs == [] then [] else PairText(kvs[0]) + [SEMICOLON] + Terminated(kvs[1..])
  }

  lemma {:induction false} TerminatedIsText(kvs: seq<KeyValue>)
    requires kvs != []
    ensures Terminated(kvs) == Text(kvs) + [SEMICOLON]
  {
    if |kvs| > 1 {
      TerminatedIsText(kvs[1..]);
    } else {
      assert Terminated(kvs[1..]) == [];
    }
  }

  lemma {:induction false} TerminatedNext(kvs: seq<KeyValue>, i: nat)
    requires i < |kvs|
    ensures Terminated(kvs[..i + 1]) == Terminated(kvs[..i]) + PairText(kvs[i]) + [SEMICOLON]
  {
    hide PairText;
    if i == 0 {
      assert Terminated(kvs[..1][1..]) == [];
    } else {
      TerminatedNext(kvs[1..], i - 1);
      assert kvs[..i + 1][1..] == kvs[1..][..i] && kvs[..i][1..] == kvs[1..][..i - 1];
    }
  }

  lemma {:induction false} TerminatedIsLonger(kvs: seq<KeyValue>, i: nat)
    requires i <= |kvs|
    ensures |Terminated(kvs[..i])| <= |Terminated(kvs)|
    decreases |kvs| - i
  {
    if i < |kvs| {
      TerminatedNext(kvs, i);
      TerminatedIsLonger(kvs, i + 1);
    } else {
      assert kvs[..i] == kvs;
    }
  }

  /** The sizing pass over one byte string. */
  method SizeEscaped(s: seq<Byte>) returns (n: nat)
    ensures n == |Escaped(s)|
  {
    n := 0;
    for i := 0 to |s|
      invariant n == |Escaped(s[..i])|
    {
      EscapedNext(s, i);
      var c := TableEscape(s[i]);
      n := n + if c == 0 then 1 else if c == 1 then 4 else 2;
    }
    assert s[..|s|] == s;
  }

  /** The writing pass over one byte string. */
  method WriteEscaped(buf: array<Byte>, at: nat, s: seq<Byte>) returns (end: nat)
    requires at + |Escaped(s)| <= buf.Length
    modifies buf
    ensures end == at + |Escaped(s)| && buf[..end] == old(buf[..at]) + Escaped(s)
  {
    end := at;
    for i := 0 to |s|
      invariant end == at + |Escaped(s[..i])| <= at + |Escaped(s)|
      invariant buf[..end] == old(buf[..at]) + Escaped(s[..i])
    {
      EscapedNext(s, i);
      EscapedIsLonger(s, i + 1);
      end := WriteByte(buf, end, s[i]);
    }
    assert s[..|s|] == s;
  }

  method WriteByte(buf: array<Byte>, at: nat, b: Byte) returns (end: nat)
    requires at + |EscapedByte(b)| <= buf.Length
    modifies buf
    ensures end == at + |EscapedByte(b)| && buf[..end] == old(buf[..at]) + EscapedByte(b)
  {
    var c := TableEscape(b);
    if c == 0 {
      buf[at] := b;
      end := at + 1;
    } else if c == 1 {
      buf[at] := BACKSLASH;
      buf[at + 1] := LETTER_X;
      buf[at + 2] := TableHex(b / 16);
      buf[at + 3] := TableHex(b % 16);
      end := at + 4;
    } else {
      buf[at] := BACKSLASH;
      buf[at + 1] := c;
      end := at + 2;
    }
  }

  method WritePair(buf: array<Byte>, at: nat, kv: KeyValue) returns (end: nat)
    requires at + |PairText(kv)| + 1 <= buf.Length
    modifies buf
    ensures end == at + |PairText(kv)| + 1 && buf[..end] == old(buf[..at]) + PairText(kv) + [SEMICOLON]
  {
    hide Escaped;
    end := WriteEscaped(buf, at, kv.key);
    buf[end] := EQUALS;
    end := end + 1;
    assert buf[..end] == old(buf[..at]) + Escaped(kv.key) + [EQUALS];
    end := WriteEscaped(buf, end, kv.value);
    buf[end] := SEMICOLON;
    end := end + 1;
  }

  /** kvvec_to_ekvstr: the buffer holds the text and a NUL, and the writing pass
      fills exactly the bytes the sizing pass counted. */
  method KvvecToEkvstr(vec: Vector) returns (buf: array<Byte>, ghost written: nat)
    requires vec.Valid()
    ensures fresh(buf) && |Text(vec.Contents())| < buf.Length
    ensures buf[..|Text(vec.Contents())|] == Text(vec.Contents()) && buf[|Text(vec.Contents())|] == NUL
    ensures written == |Terminated(vec.Contents())| == buf.Length - 1
  {
    hide Text, PairText, Escaped;
    ghost var kvs := vec.Contents();
    var bufsize := 1;
    for i := 0 to vec.pairs
      invariant bufsize == 1 + |Terminated(kvs[..i])|
    {
      TerminatedNext(kvs, i);
      var k := SizeEscaped(vec.kv[i].key);
      var v := SizeEscaped(vec.kv[i].value);
      PairTextSize(vec.kv[i]);
      bufsize := bufsize + 2 + k + v;
    }
    assert kvs[..vec.pairs] == kvs;
    buf := new Byte[bufsize](_ => 0);
    var ptr := 0;
    for i := 0 to vec.pairs
      invariant ptr == |Terminated(kvs[..i])| < buf.Length == 1 + |Terminated(kvs)|
      invariant buf[..ptr] == Terminated(kvs[..i]) && vec.Valid() && vec.Contents() == kvs
    {
      TerminatedNext(kvs, i);
      TerminatedIsLonger(kvs, i + 1);
      ptr := WritePair(buf, ptr, vec.kv[i]);
    }
    written := ptr;
    if kvs != [] { TerminatedIsText(kvs); }
    if vec.pairs == 0 {
      ptr := ptr + 1;
    }
    ptr := ptr - 1;
    buf[ptr] := NUL;
  }

  /** A C string as the parser reads it: there is a NUL behind the last byte. */
  function At(s: seq<Byte>, p: nat): Byte
    requires p <= |s|
  {
    if p < |s| then s[p] else NUL
  }

  /** One step of reading: nothing more to come, or a byte and where to go on. */
  datatype Item = Stop(at: nat) | Item(byte: Byte, next: nat)

  function Next(s: seq<Byte>, p: nat, endChar: Byte): (item: Item)
    requires p <= |s| && NUL !in s
    ensures item.Stop? ==> p <= item.at <= |s|
    ensures item.Item? ==> p < item.next <= |s|
  {
    if At(s, p) == NUL || At(s, p) == endChar then Stop(p)
    else if At(s, p) != BACKSLASH then Item(At(s, p), p + 1)
    else if At(s, p + 1) == NUL then Stop(p + 1)
    else if At(s, p + 1) != LETTER_X then Item(TableUnescape(At(s, p + 1)), p + 2)
    else if At(s, p + 2) == NUL then Stop(p + 2)
    else if At(s, p + 3) == NUL then Stop(p + 3)
    else Item(Dehex(At(s, p + 2), At(s, p + 3)), p + 4)
  }

  /** What is read from p on, and where reading stops. */
  ghost function Decoded(s: seq<Byte>, p: nat, endChar: Byte): (r: (seq<Byte>, nat))
    requires p <= |s| && NUL !in s
    ensures p <= r.1 <= |s| && |r.0| <= r.1 - p
    decreases |s| - p
  {
    match Next(s, p, endChar)
    case Stop(at) => ([], at)
    case Item(b, next) => var r := Decoded(s, next, endChar); ([b] + r.0, r.1)
  }

  /** One step further into what is read. */
  lemma DecodedStep(s: seq<Byte>, p: nat, endChar: Byte, all: seq<Byte>, n: nat)
    requires p <= |s| && NUL !in s && n <= |all| && all[n..] == Decoded(s, p, endChar).0
    ensures match Next(s, p, endChar)
            case Stop(at) => n == |all| && Decoded(s, p, endChar).1 == at
            case Item(b, next) =>
              && n < |all| && all[n] == b && all[n + 1..] == Decoded(s, next, endChar).0
              && Decoded(s, p, endChar).1 == Decoded(s, next, endChar).1
  {
    hide Next;
    if n < |all| { assert all[n..][0] == all[n] && all[n..][1..] == all[n + 1..]; }
  }

  /** Whether a reserved character stands unescaped before the end. */
  ghost predicate HitsReserved(s: seq<Byte>, p: nat, endChar: Byte, reserved: Byte)
    requires p <= |s| && NUL !in s
    decreases |s| - p
  {
    At(s, p) == reserved
    || (Next(s, p, endChar).Item? && HitsReserved(s, Next(s, p, endChar).next, endChar, reserved))
  }

  /** The counting pass of expect_string. */
  method CountString(s: seq<Byte>, inptr: nat, endChar: Byte, reserved: Byte) returns (fits: bool, len: nat)
    requires inptr <= |s| && NUL !in s && endChar != BACKSLASH && reserved != BACKSLASH
    ensures fits <==> !HitsReserved(s, inptr, endChar, reserved)
    ensures fits ==> len == |Decoded(s, inptr, endChar).0|
  {
    var inp := inptr;
    len := 0;
    while true
      invariant inp <= |s|
      invariant HitsReserved(s, inptr, endChar, reserved) == HitsReserved(s, inp, endChar, reserved)
      invariant |Decoded(s, inptr, endChar).0| == len + |Decoded(s, inp, endChar).0|
      decreases |s| - inp
    {
      var chr := At(s, inp);
      inp := inp + 1;
      if chr == reserved {
        return false, 0;
      }
      if chr == NUL || chr == endChar {
        break;
      }
      if chr == BACKSLASH {
        chr := At(s, inp);
        inp := inp + 1;
        if chr == LETTER_X {
          chr := At(s, inp);
          inp := inp + 1;
          if chr == NUL {
            break;
          }
          chr := At(s, inp);
          inp := inp + 1;
          if chr == NUL {
            break;
          }
        }
      }
      if chr == NUL {
        break;
      }
      len := len + 1;
    }
    return true, len;
  }

  /** The decoding pass of expect_string. */
  method DecodeString(s: seq<Byte>, inptr: nat, endChar: Byte, buf: array<Byte>) returns (outp: nat, end: nat)
    requires inptr <= |s| && NUL !in s && endChar != BACKSLASH
    requires buf.Length > |Decoded(s, inptr, endChar).0|
    modifies buf
    ensures outp <= buf.Length && buf[..outp] == Decoded(s, inptr, endChar).0 && end == Decoded(s, inptr, endChar).1
  {
    hide TableUnescape, Dehex, Decoded;
    var inp := inptr;
    ghost var all := Decoded(s, inptr, endChar);
    outp := 0;
    while true
      invariant inp <= |s| && outp <= |all.0| && all.1 == Decoded(s, inp, endChar).1
      invariant all.0[outp..] == Decoded(s, inp, endChar).0 && buf[..outp] == all.0[..outp]
      decreases |s| - inp
    {
      DecodedStep(s, inp, endChar, all.0, outp);
      var chr := At(s, inp);
      inp := inp + 1;
      if chr == NUL || chr == endChar {
        break;
      }
      if chr == BACKSLASH {
        chr := At(s, inp);
        inp := inp + 1;
        if chr == NUL {
          break;
        } else if chr != LETTER_X {
          buf[outp] := TableUnescape(chr);
        } else {
          var hi := At(s, inp);
          inp := inp + 1;
          if hi == NUL {
            break;
          }
          chr := At(s, inp);
          inp := inp + 1;
          if chr == NUL {
            break;
          }
          buf[outp] := Dehex(hi, chr);
        }
      } else {
        buf[outp] := chr;
      }
      outp := outp + 1;
    }
    end := inp - 1;
  }

  /** expect_string.  Both passes agree on every input: the buffer that the counting
      pass sizes holds exactly the bytes the decoding pass writes, and a NUL. */
  method ExpectString(s: seq<Byte>, inptr: nat, endChar: Byte, reserved: Byte)
    returns (buf: array?<Byte>, length: nat, end: nat)
    requires inptr <= |s| && NUL !in s && endChar != BACKSLASH && reserved != BACKSLASH
    ensures buf == null <==> HitsReserved(s, inptr, endChar, reserved)
    ensures buf == null ==> end == inptr
    ensures buf != null ==> fresh(buf) && buf.Length == length + 1 && buf[length] == NUL
    ensures buf != null ==> buf[..length] == Decoded(s, inptr, endChar).0 && end == Decoded(s, inptr, endChar).1
  {
    var fits, len := CountString(s, inptr, endChar, reserved);
    if !fits {
      return null, 0, inptr;
    }
    buf := new Byte[len + 1](_ => 0);
    length, end := DecodeString(s, inptr, endChar, buf);
    buf[length] := NUL;
  }

  datatype Parsed = Failed | Parsed(kvs: seq<KeyValue>)

  /** What the whole text from p on stands for. */
  ghost function ParsedFrom(s: seq<Byte>, p: nat): Parsed
    requires p <= |s| && NUL !in s
    decreases |s| - p
  {
    if p == |s| then Parsed([])
    else if HitsReserved(s, p, EQUALS, SEMICOLON) then Failed
    else
      var (key, q) := Decoded(s, p, EQUALS);
      if At(s, q) != EQUALS || HitsReserved(s, q + 1, SEMICOLON, EQUALS) then Failed
      else
        var (value, e) := Decoded(s, q + 1, SEMICOLON);
        var rest := ParsedFrom(s, if At(s, e) == SEMICOLON then e + 1 else e);
        if rest.Failed? then Failed else Parsed([KeyValue(key, value)] + rest.kvs)
  }

  /** ekvstr_to_kvvec: null for a text that stands for no vector. */
  method EkvstrToKvvec(s: seq<Byte>) returns (kvv: Vector?)
    requires NUL !in s
    ensures kvv == null <==> ParsedFrom(s, 0).Failed?
    ensures kvv != null ==> fresh(kvv) && fresh(kvv.kv) && kvv.Valid() && ParsedFrom(s, 0) == Parsed(kvv.Contents())
  {
    hide Decoded, HitsReserved, ParsedFrom;
    var vec := new Vector(35);
    var inptr := 0;
    AfterNothing(ParsedFrom(s, 0));
    while At(s, inptr) != NUL
      invariant inptr <= |s| && vec.Valid() && fresh(vec) && fresh(vec.kv)
      invariant ParsedFrom(s, 0) == After(vec.Contents(), ParsedFrom(s, inptr))
      decreases |s| - inptr
    {
      FirstPair(s, inptr);
      var key, keyLen, keyEnd := ExpectString(s, inptr, EQUALS, SEMICOLON);
      if key == null || At(s, keyEnd) != EQUALS {
        return null;
      }
      var value, valueLen, valueEnd := ExpectString(s, keyEnd + 1, SEMICOLON, EQUALS);
      if value == null {
        return null;
      }
      AfterOneMore(vec.Contents(), KeyValue(key[..keyLen], value[..valueLen]),
                   ParsedFrom(s, if At(s, valueEnd) == SEMICOLON then valueEnd + 1 else valueEnd));
      vec.AddKv(key[..keyLen], value[..valueLen]);
      inptr := valueEnd;
      if At(s, inptr) == SEMICOLON {
        inptr := inptr + 1;
      }
    }
    assert inptr == |s|;
    ParsedAll(s);
    return vec;
  }

  ghost function After(kvs: seq<KeyValue>, p: Parsed): Parsed {
    if p.Failed? then Failed else Parsed(kvs + p.kvs)
  }

  lemma AfterNothing(p: Parsed)
    ensures After([], p) == p
  {
    if p.Parsed? { assert [] + p.kvs == p.kvs; }
  }

  lemma AfterOneMore(kvs: seq<KeyValue>, kv: KeyValue, p: Parsed)
    ensures After(kvs, After([kv], p)) == After(kvs + [kv], p)
  {
    if p.Parsed? { assert kvs + ([kv] + p.kvs) == kvs + [kv] + p.kvs; }
  }

  lemma ParsedAll(s: seq<Byte>)
    requires NUL !in s
    ensures ParsedFrom(s, |s|) == Parsed([])
    ensures forall kvs :: After(kvs, Parsed([])) == Parsed(kvs)
  {
    forall kvs: seq<KeyValue> ensures After(kvs, Parsed([])) == Parsed(kvs) {
      assert kvs + [] == kvs;
    }
  }

  lemma FirstPair(s: seq<Byte>, p: nat)
    requires p <= |s| && NUL !in s && At(s, p) != NUL
    ensures p < |s|
    ensures var k := Decoded(s, p, EQUALS);
            if HitsReserved(s, p, EQUALS, SEMICOLON) || At(s, k.1) != EQUALS then ParsedFrom(s, p) == Failed
            else if HitsReserved(s, k.1 + 1, SEMICOLON, EQUALS) then ParsedFrom(s, p) == Failed
            else
              var v := Decoded(s, k.1 + 1, SEMICOLON);
              var e := if At(s, v.1) == SEMICOLON then v.1 + 1 else v.1;
              p < e && ParsedFrom(s, p) == After([KeyValue(k.0, v.0)], ParsedFrom(s, e))
  {
    hide Decoded, HitsReserved;
  }

  lemma ByteRoundTrip(b: Byte, s: seq<Byte>, p: nat, endChar: Byte)
    requires NUL !in s && (endChar == EQUALS || endChar == SEMICOLON)
    requires p + |EscapedByte(b)| <= |s| && s[p..p + |EscapedByte(b)|] == EscapedByte(b)
    ensures Next(s, p, endChar) == Item(b, p + |EscapedByte(b)|)
    ensures At(s, p) != EQUALS && At(s, p) != SEMICOLON
  {
    var e := EscapedByte(b);
    assert forall k :: p <= k < p + |e| ==> s[k] == s[p..p + |e|][k - p];
  }

  /** An escaped string reads back as itself up to whatever ends it. */
  lemma {:induction false} StringRoundTrip(bytes: seq<Byte>, s: seq<Byte>, p: nat, endChar: Byte, reserved: Byte)
    requires NUL !in s && {endChar, reserved} == {EQUALS, SEMICOLON}
    requires p + |Escaped(bytes)| <= |s| && s[p..p + |Escaped(bytes)|] == Escaped(bytes)
    requires At(s, p + |Escaped(bytes)|) == endChar || At(s, p + |Escaped(bytes)|) == NUL
    ensures Decoded(s, p, endChar) == (bytes, p + |Escaped(bytes)|)
    ensures !HitsReserved(s, p, endChar, reserved)
    decreases |bytes|
  {
    hide EscapedByte, Next, Decoded, HitsReserved;
    assert endChar != reserved && (endChar == EQUALS || endChar == SEMICOLON) && reserved != NUL by {
      assert EQUALS in {endChar, reserved} && SEMICOLON in {endChar, reserved};
      assert endChar in {EQUALS, SEMICOLON} && reserved in {EQUALS, SEMICOLON};
    }
    ReadOn(s, p, endChar, reserved);
    if bytes == [] {
      StopsAt(s, p, endChar);
    } else {
      var e, q := EscapedByte(bytes[0]), p + |EscapedByte(bytes[0])|;
      assert Escaped(bytes)[..|e|] == e && Escaped(bytes)[|e|..] == Escaped(bytes[1..]);
      assert s[p..q] == s[p..p + |Escaped(bytes)|][..|e|];
      assert s[q..q + |Escaped(bytes[1..])|] == s[p..p + |Escaped(bytes)|][|e|..];
      ByteRoundTrip(bytes[0], s, p, endChar);
      StringRoundTrip(bytes[1..], s, q, endChar, reserved);
      assert [bytes[0]] + bytes[1..] == bytes;
    }
  }

  lemma ReadOn(s: seq<Byte>, p: nat, endChar: Byte, reserved: Byte)
    requires p <= |s| && NUL !in s
    ensures var item := Next(s, p, endChar);
            if item.Stop? then
              Decoded(s, p, endChar) == ([], item.at) && (HitsReserved(s, p, endChar, reserved) <==> At(s, p) == reserved)
            else
              var r := Decoded(s, item.next, endChar);
              && Decoded(s, p, endChar) == ([item.byte] + r.0, r.1)
              && (HitsReserved(s, p, endChar, reserved)
                  <==> At(s, p) == reserved || HitsReserved(s, item.next, endChar, reserved))
  {
    hide Next;
  }

  lemma StopsAt(s: seq<Byte>, p: nat, endChar: Byte)
    requires p <= |s| && NUL !in s && (At(s, p) == endChar || At(s, p) == NUL)
    ensures Next(s, p, endChar) == Stop(p)
  {
  }

  /** The text of a vector reads back as the vector, from wherever it starts. */
  lemma {:induction false} TextRoundTrip(kvs: seq<KeyValue>, s: seq<Byte>, p: nat)
    requires NUL !in s && p <= |s| && s[p..] == Text(kvs)
    ensures ParsedFrom(s, p) == Parsed(kvs)
    decreases |kvs|
  {
    hide Escaped, ParsedFrom, Text, After;
    TextBegins(kvs);
    ParsedAll(s);
    if kvs != [] {
      var kv, rest := kvs[0], kvs[1..];
      var tail := if |kvs| == 1 then [] else [SEMICOLON] + Text(rest);
      var e := PairRoundTrip(kv, s, p, tail);
      if |kvs| > 1 {
        assert s[e + 1..] == tail[1..] == Text(rest);
        TextRoundTrip(rest, s, e + 1);
      }
      AfterParsed(kv, rest);
      assert kvs == [kv] + rest;
    }
  }

  /** With the last semicolon left in, the text reads back all the same. */
  lemma {:induction false} TerminatedRoundTrip(kvs: seq<KeyValue>, s: seq<Byte>, p: nat)
    requires NUL !in s && p <= |s| && s[p..] == Terminated(kvs)
    ensures ParsedFrom(s, p) == Parsed(kvs)
    decreases |kvs|
  {
    hide Escaped, ParsedFrom, After;
    ParsedAll(s);
    if kvs != [] {
      var tail := [SEMICOLON] + Terminated(kvs[1..]);
      assert Terminated(kvs) == PairText(kvs[0]) + tail;
      var e := PairRoundTrip(kvs[0], s, p, tail);
      assert s[e + 1..] == tail[1..] == Terminated(kvs[1..]);
      TerminatedRoundTrip(kvs[1..], s, e + 1);
      AfterParsed(kvs[0], kvs[1..]);
      assert kvs == [kvs[0]] + kvs[1..];
    }
  }

  /** No pair, no vector: a text without an equals sign stands for none unless it is empty. */
  lemma NeedsEquals(s: seq<Byte>)
    requires NUL !in s && EQUALS !in s
    ensures ParsedFrom(s, 0) == if s == [] then Parsed([]) else Failed
  {
  }

  /** The first pair of a text is read back, and then what comes behind it. */
  lemma PairRoundTrip(kv: KeyValue, s: seq<Byte>, p: nat, tail: seq<Byte>) returns (e: nat)
    requires NUL !in s && p <= |s| && s[p..] == Escaped(kv.key) + [EQUALS] + Escaped(kv.value) + tail
    requires tail == [] || tail[0] == SEMICOLON
    ensures e <= |s| && s[e..] == tail
    ensures ParsedFrom(s, p) == After([kv], ParsedFrom(s, if tail == [] then e else e + 1))
  {
    hide Escaped, Decoded, HitsReserved, ParsedFrom, After;
    var k, v := Escaped(kv.key), Escaped(kv.value);
    CutsInto(s, p, k, v, tail);
    StringRoundTrip(kv.key, s, p, EQUALS, SEMICOLON);
    StringRoundTrip(kv.value, s, p + |k| + 1, SEMICOLON, EQUALS);
    FirstPair(s, p);
    e := p + |k| + 1 + |v|;
  }

  lemma AfterParsed(kv: KeyValue, kvs: seq<KeyValue>)
    ensures After([kv], Parsed(kvs)) == Parsed([kv] + kvs)
  {
  }

  lemma TextBegins(kvs: seq<KeyValue>)
    ensures Text(kvs) == if kvs == [] then [] else
              Escaped(kvs[0].key) + [EQUALS] + Escaped(kvs[0].value)
              + if |kvs| == 1 then [] else [SEMICOLON] + Text(kvs[1..])
  {
  }

  lemma CutsInto(s: seq<Byte>, p: nat, k: seq<Byte>, v: seq<Byte>, tail: seq<Byte>)
    requires p <= |s| && s[p..] == k + [EQUALS] + v + tail
    requires tail == [] || tail[0] == SEMICOLON
    ensures At(s, p) != NUL || k == [] || k[0] == NUL
    ensures var q := p + |k|;
            var e := q + 1 + |v|;
            && e <= |s| && s[p..q] == k && At(s, q) == EQUALS && s[q + 1..e] == v && s[e..] == tail
            && At(s, e) == if tail == [] then NUL else SEMICOLON
  {
    var q := p + |k|;
    var e := q + 1 + |v|;
    var t := s[p..];
    assert t[..|k|] == k && t[|k|] == EQUALS && t[|k| + 1..|k| + 1 + |v|] == v && t[|k| + 1 + |v|..] == tail;
    assert s[p..q] == t[..|k|] && s[q] == t[|k|];
    assert s[q + 1..e] == t[|k| + 1..|k| + 1 + |v|] && s[e..] == t[|k| + 1 + |v|..];
    if tail != [] { assert s[e] == s[e..][0]; }
    assert s[p] == t[0];
  }

  /** Every vector, whatever bytes its keys and values hold, comes back from its text. */
  lemma RoundTrip(kvs: seq<KeyValue>)
    ensures NUL !in Text(kvs) && ParsedFrom(Text(kvs), 0) == Parsed(kvs)
  {
    TextRoundTrip(kvs, Text(kvs), 0);
  }

  /** Printing a vector and parsing the text gives a vector with the same pairs. */
  method PrintAndParse(vec: Vector) returns (again: Vector)
    requires vec.Valid()
    ensures fresh(again) && again.Valid() && again.Contents() == vec.Contents()
  {
    hide ParsedFrom, Terminated;
    var buf, _ := KvvecToEkvstr(vec);
    RoundTrip(vec.Contents());
    var len := 0;
    while buf[len] != NUL
      invariant len <= |Text(vec.Contents())|
      decreases |Text(vec.Contents())| - len
    {
      assert len < |Text(vec.Contents())|;
      len := len + 1;
    }
    again := EkvstrToKvvec(buf[..len]);
  }
}
