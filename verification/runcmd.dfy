/** The command tokenizer: how a command line is cut into arguments, and what it is
    found to hold that only a shell can deal with. */
module RunCmd {
  import opened Bytes

  const SPACE: Byte := 32
  const DQUOTE: Byte := 34
  const DOLLAR: Byte := 36
  const AMPERSAND: Byte := 38
  const SQUOTE: Byte := 39
  const OPEN_PAREN: Byte := 40
  const CLOSE_PAREN: Byte := 41
  const ASTERISK: Byte := 42
  const QUESTION: Byte := 63
  const UNDERLINE: Byte := 95
  const BACKQUOTE: Byte := 96
  const PIPE: Byte := 124
  const TILDE: Byte := 126

  predicate IsWhite(c: Byte) {
    c == SPACE || c == 9 || c == 13 || c == 10
  }

  /** The bits of the return code. */
  datatype Anomaly =
    | HasRedir | HasSubcommand | HasParen | HasJobControl | HasUbsq | HasUbdq | HasWildcard | HasShvar

  /** The state bits of the second pass. */
  datatype State = State(inArg: bool, inSq: bool, inDq: bool, isSpecial: bool, hasBslash: bool)
  {
    predicate InQuotes() {
      inSq || inDq
    }
  }

  const NONE := State(false, false, false, false, false)
  const IN_ARG := State(true, false, false, false, false)
  const IN_SQ := State(true, true, false, false, false)
  const IN_DQ := State(true, false, true, false, false)
  const SPECIAL := State(false, false, false, true, false)

  /** What a character does: nothing but to the state, end an argument, open quotes, or
      be copied, itself or the one after it. */
  datatype Reaction = Skip(s: State) | EndArg | Open(s: State) | Copy(s: State) | CopyNext(s: State)

  ghost function React(s: State, c: Byte, next: Byte): Reaction {
    if IsWhite(c) then
      if s == IN_ARG then EndArg else if s.InQuotes() then Copy(s) else Skip(s)
    else if c == BACKSLASH && !s.inSq && !s.hasBslash then
      if !s.inDq then CopyNext(s)
      else if next in {DQUOTE, BACKSLASH, DOLLAR, BACKQUOTE} then Skip(s.(hasBslash := true))
      else Copy(s)
    else if c == SQUOTE && !s.inDq && s.inSq then Skip(s.(inSq := false))
    else if c == SQUOTE && !s.inDq && (s == NONE || s == IN_ARG) then Open(IN_SQ)
    else if c == DQUOTE && !s.inSq && s.inDq then Skip(s.(inDq := false))
    else if c == DQUOTE && !s.inSq && (s == NONE || s == IN_ARG) then Open(IN_DQ)
    else if (c == AMPERSAND || c == SEMICOLON) && !s.InQuotes() then Copy(SPECIAL)
    else Copy(s)
  }

  /** What a character is a sign of. */
  function Signs(s: State, c: Byte, next: Byte, seenSpace: bool): set<Anomaly> {
    if c == PIPE && !s.InQuotes() then {HasRedir}
    else if c == TILDE && !s.inSq then {HasShvar}
    else if (c == AMPERSAND || c == SEMICOLON) && !s.InQuotes() then {HasJobControl}
    else if c == BACKQUOTE && !s.inSq && !s.hasBslash then {HasSubcommand}
    else if (c == OPEN_PAREN || c == CLOSE_PAREN) && !s.InQuotes() then {HasParen}
    else if c == DOLLAR && !s.inSq && !s.hasBslash then
      if next == OPEN_PAREN then {HasSubcommand} else {HasShvar}
    else if (c == ASTERISK || c == QUESTION) && !s.InQuotes() then {HasWildcard}
    else if c == EQUALS && !s.InQuotes() && !seenSpace then {HasShvar}
    else {}
  }

  /** Where the second pass has come to: the argument bytes so far, where arguments begin
      in them, and what was found. */
  datatype Progress = Progress(state: State, argz: seq<Byte>, argv: seq<nat>, ret: set<Anomaly>, seenSpace: bool)

  function At(s: seq<Byte>, i: nat): Byte {
    if i < |s| then s[i] else NUL
  }

  ghost function Copied(p: Progress, s: State, c: Byte): Progress {
    var t := s.(hasBslash := false);
    if t == NONE then p.(state := IN_ARG, argv := p.argv + [|p.argz|], argz := p.argz + [c])
    else p.(state := t, argz := p.argz + [c])
  }

  ghost function Advanced(p: Progress, str: seq<Byte>, i: nat): Progress
    requires i < |str|
  {
    var c, next := str[i], At(str, i + 1);
    var q := p.(ret := p.ret + Signs(p.state, c, next, p.seenSpace),
                seenSpace := p.seenSpace || (IsWhite(c) && p.state != IN_ARG));
    match React(p.state, c, next)
    case Skip(s) => q.(state := s)
    case EndArg => q.(state := NONE, argz := q.argz + [NUL])
    case Open(s) => q.(state := s, argv := if p.state == NONE then q.argv + [|q.argz|] else q.argv)
    case Copy(s) => Copied(q, s, c)
    case CopyNext(s) => Copied(q, s, next)
  }

  ghost function StepLength(p: Progress, str: seq<Byte>, i: nat): nat
    requires i < |str|
  {
    if React(p.state, str[i], At(str, i + 1)).CopyNext? then 2 else 1
  }

  ghost function Rest(p: Progress, str: seq<Byte>, i: nat): Progress
    decreases |str| - i
  {
    if i >= |str| then p else Rest(Advanced(p, str, i), str, i + StepLength(p, str, i))
  }

  const START := Progress(NONE, [], [], {}, false)

  ghost function Unbalanced(s: State): set<Anomaly> {
    (if s.inSq then {HasUbsq} else {}) + (if s.inDq then {HasUbdq} else {})
  }

  /** The C string that begins at some place. */
  ghost function StringAt(s: seq<Byte>, at: nat): seq<Byte>
    decreases |s| - at
  {
    if at >= |s| || s[at] == NUL then [] else [s[at]] + StringAt(s, at + 1)
  }

  /** Every argument takes a character and a separator: the vector of half the length, and
      some, is never overrun, nor is the copy of the arguments. */
  ghost predicate Fits(p: Progress, i: nat) {
    && |p.argz| <= i
    && (p.state.inSq || p.state.inDq || p.state.hasBslash ==> p.state.inArg)
    && 2 * |p.argv| <= i + (if p.state == NONE then 0 else 1)
  }

  lemma AdvancedFits(p: Progress, str: seq<Byte>, i: nat)
    requires i < |str| && Fits(p, i)
    ensures Fits(Advanced(p, str, i), i + StepLength(p, str, i))
    ensures |Advanced(p, str, i).argz| <= i + 1 && 2 * |Advanced(p, str, i).argv| <= i + 2
  {
  }

  lemma {:induction false} RestFits(p: Progress, str: seq<Byte>, i: nat)
    requires Fits(p, i) && i <= |str|
    ensures |Rest(p, str, i).argz| <= |str| && 2 * |Rest(p, str, i).argv| <= |str| + 1
    decreases |str| - i
  {
    if i < |str| {
      AdvancedFits(p, str, i);
      if i + StepLength(p, str, i) <= |str| {
        RestFits(Advanced(p, str, i), str, i + StepLength(p, str, i));
      }
    }
  }

  lemma OneStep(p: Progress, str: seq<Byte>, i: nat)
    ensures i >= |str| ==> Rest(p, str, i) == p
    ensures i < |str| ==> StepLength(p, str, i) == if React(p.state, str[i], At(str, i + 1)).CopyNext? then 2 else 1
    ensures i < |str| ==> Rest(p, str, i) == Rest(Advanced(p, str, i), str, i + StepLength(p, str, i))
  {
  }

  /** The switch of the second pass, as far as it decides what becomes of a character. */
  method Decide(state: State, c: Byte, next: Byte) returns (r: Reaction)
    ensures r == React(state, c, next)
  {
    if IsWhite(c) {
      if state == IN_ARG {
        return EndArg;
      }
      if !state.InQuotes() {
        return Skip(state);
      }
    } else if c == BACKSLASH {
      if state.inSq || state.hasBslash {
        return Copy(state);
      }
      if state.inDq {
        if next == DQUOTE || next == BACKSLASH || next == DOLLAR || next == BACKQUOTE {
          return Skip(state.(hasBslash := true));
        }
        return Copy(state);
      }
      return CopyNext(state);
    } else if c == SQUOTE {
      if state.inDq {
        return Copy(state);
      }
      if state.inSq {
        return Skip(state.(inSq := false));
      }
      if state == NONE || state == IN_ARG {
        return Open(IN_SQ);
      }
    } else if c == DQUOTE {
      if state.inSq {
        return Copy(state);
      }
      if state.inDq {
        return Skip(state.(inDq := false));
      }
      if state == NONE || state == IN_ARG {
        return Open(IN_DQ);
      }
    } else if c == AMPERSAND || c == SEMICOLON {
      if !state.InQuotes() {
        return Copy(SPECIAL);
      }
    }
    return Copy(state);
  }

  lemma WhatIsSeen(p: Progress, str: seq<Byte>, i: nat)
    requires i < |str|
    ensures Advanced(p, str, i).ret == p.ret + Signs(p.state, str[i], At(str, i + 1), p.seenSpace)
    ensures Advanced(p, str, i).seenSpace == (p.seenSpace || (IsWhite(str[i]) && p.state != IN_ARG))
  {
  }

  /** What the loop does with one character, or with a backslash and what it escapes. */
  method TakeCharacter(str: seq<Byte>, i: nat, argz: array<Byte>, argv: array<nat>, s0: State, a0: nat, argc0: nat,
                       ghost p: Progress) returns (state: State, a: nat, argc: nat, next: nat)
    requires i < |str| && a0 < argz.Length && argc0 < argv.Length && p.state == s0
    requires argz[..a0] == p.argz && argv[..argc0] == p.argv
    modifies argz, argv
    ensures var q := Advanced(p, str, i);
            && state == q.state && a == |q.argz| <= argz.Length && argc == |q.argv| <= argv.Length
            && argz[..a] == q.argz && argv[..argc] == q.argv && next == i + StepLength(p, str, i)
  {
    hide React, Signs;
    state, a, argc, next := s0, a0, argc0, i + 1;
    var r := Decide(state, str[i], At(str, i + 1));
    if r.Skip? {
      state := r.s;
    } else if r.EndArg? {
      state := NONE;
      argz[a] := NUL;
      a := a + 1;
    } else if r.Open? {
      if state == NONE {
        argv[argc] := a;
        argc := argc + 1;
      }
      state := r.s;
    } else {
      if r.CopyNext? {
        next := next + 1;
      }
      state := r.s.(hasBslash := false);
      if state == NONE {
        state := IN_ARG;
        argv[argc] := a;
        argc := argc + 1;
      }
      argz[a] := At(str, next - 1);
      a := a + 1;
    }
  }

  /** The second pass of runcmd_cmd2strv.  The vector for the arguments has the size that
      runcmd_open gives it. */
  method SplitArguments(str: seq<Byte>, argstart: nat, argv: array<nat>)
    returns (argz: array<Byte>, argc: nat, ret: set<Anomaly>)
    requires NUL !in str && argstart <= |str| && argv.Length >= |str| / 2 + 5
    modifies argv
    ensures var p := Rest(START, str, argstart);
            && argc == |p.argv| <= argv.Length && argv[..argc] == p.argv
            && fresh(argz) && |p.argz| < argz.Length && argz[..|p.argz| + 1] == p.argz + [NUL]
            && ret == p.ret + Unbalanced(p.state)
  {
    hide Advanced, StepLength, Rest;
    ghost var p := START;
    argz := new Byte[|str| + 1](_ => 0);
    var state, a := NONE, 0;
    argc, ret := 0, {};
    var seenSpace := false;
    var i := argstart;
    while i < |str|
      invariant i <= |str| ==> Fits(p, i)
      invariant |p.argz| <= |str| && 2 * |p.argv| <= |str| + 1
      invariant Rest(START, str, argstart) == Rest(p, str, i)
      invariant argc == |p.argv| && argv[..argc] == p.argv
      invariant a == |p.argz| && argz[..a] == p.argz
      invariant p.state == state && p.ret == ret && p.seenSpace == seenSpace
      decreases |str| - i
    {
      AdvancedFits(p, str, i);
      OneStep(p, str, i);
      WhatIsSeen(p, str, i);
      ghost var q, step := Advanced(p, str, i), StepLength(p, str, i);
      var c := str[i];
      ret := ret + Signs(state, c, At(str, i + 1), seenSpace);
      if IsWhite(c) && state != IN_ARG {
        seenSpace := true;
      }
      state, a, argc, i := TakeCharacter(str, i, argz, argv, state, a, argc, p);
      p := q;
    }
    OneStep(p, str, i);
    argz[a] := NUL;
    if state.inSq {
      ret := ret + {HasUbsq};
    }
    if state.inDq {
      ret := ret + {HasUbdq};
    }
  }

  /** The ways to write an argument down so that it stays one. */
  datatype Quoted = Single(arg: seq<Byte>) | Escaped(arg: seq<Byte>) | Double(arg: seq<Byte>) | Plain(arg: seq<Byte>)

  /** A byte that means nothing to the tokenizer. */
  predicate IsOrdinary(c: Byte) {
    !IsWhite(c) && c !in {NUL, BACKSLASH, SQUOTE, DQUOTE, PIPE, TILDE, AMPERSAND, SEMICOLON, BACKQUOTE,
                          OPEN_PAREN, CLOSE_PAREN, DOLLAR, ASTERISK, QUESTION, EQUALS}
  }

  ghost predicate Quotable(q: Quoted) {
    && NUL !in q.arg && (q.Single? ==> SQUOTE !in q.arg) && (q.Escaped? ==> q.arg != [])
    && (q.Double? ==> DQUOTE !in q.arg && TILDE !in q.arg)
    && (q.Plain? ==> q.arg != [] && forall c :: c in q.arg ==> IsOrdinary(c))
  }

  ghost function Escape(arg: seq<Byte>): (t: seq<Byte>)
    ensures |t| == 2 * |arg|
  {
    if arg == [] then [] else [BACKSLASH, arg[0]] + Escape(arg[1..])
  }

  /** What a backslash escapes between double quotes. */
  predicate IsEscapable(c: Byte) {
    c in {DQUOTE, BACKSLASH, DOLLAR, BACKQUOTE}
  }

  ghost function EscapeInDouble(arg: seq<Byte>): (t: seq<Byte>)
    ensures |t| >= |arg|
  {
    if arg == [] then []
    else (if IsEscapable(arg[0]) then [BACKSLASH, arg[0]] else [arg[0]]) + EscapeInDouble(arg[1..])
  }

  ghost function Text(q: Quoted): (t: seq<Byte>)
    ensures Quotable(q) ==> |t| > 0
  {
    match q
    case Single(arg) => [SQUOTE] + arg + [SQUOTE]
    case Escaped(arg) => Escape(arg)
    case Double(arg) => [DQUOTE] + EscapeInDouble(arg) + [DQUOTE]
    case Plain(arg) => arg
  }

  /** A command line: the arguments with a space between them. */
  ghost function Command(qs: seq<Quoted>): seq<Byte> {
    if qs == [] then []
    else if |qs| == 1 then Text(qs[0])
    else Text(qs[0]) + [SPACE] + Command(qs[1..])
  }

  ghost predicate AllQuotable(qs: seq<Quoted>) {
    forall i :: 0 <= i < |qs| ==> Quotable(qs[i])
  }

  /** A piece of a string lies at some place. */
  ghost predicate LiesAt(t: seq<Byte>, str: seq<Byte>, i: nat) {
    i + |t| <= |str| && str[i..i + |t|] == t
  }

  /** Same progress, apart from having seen white space or not. */
  ghost predicate Alike(p: Progress, s: State, argz: seq<Byte>, argv: seq<nat>, ret: set<Anomaly>) {
    p.state == s && p.argz == argz && p.argv == argv && p.ret == ret
  }

  /** What single characters of a quoted argument do. */
  lemma QuotedStep(p: Progress, str: seq<Byte>, i: nat) returns (n: Progress)
    requires i < |str|
    requires p.state == IN_SQ || ((p.state == NONE || p.state == IN_ARG) && str[i] == SQUOTE)
    ensures Rest(p, str, i) == Rest(n, str, i + 1)
    ensures str[i] != SQUOTE ==> Alike(n, IN_SQ, p.argz + [str[i]], p.argv, p.ret)
    ensures str[i] == SQUOTE && p.state == IN_SQ ==> Alike(n, IN_ARG, p.argz, p.argv, p.ret)
    ensures str[i] == SQUOTE && p.state == NONE ==> Alike(n, IN_SQ, p.argz, p.argv + [|p.argz|], p.ret)
  {
    n := Advanced(p, str, i);
    assert n.ret == p.ret;
  }

  lemma EscapedStep(p: Progress, str: seq<Byte>, i: nat) returns (n: Progress)
    requires i + 1 < |str| && str[i] == BACKSLASH && (p.state == NONE || p.state == IN_ARG)
    ensures Rest(p, str, i) == Rest(n, str, i + 2)
    ensures Alike(n, IN_ARG, p.argz + [str[i + 1]], if p.state == NONE then p.argv + [|p.argz|] else p.argv, p.ret)
  {
    n := Advanced(p, str, i);
    assert n.ret == p.ret;
  }

  lemma SpaceStep(p: Progress, str: seq<Byte>, i: nat) returns (n: Progress)
    requires i < |str| && str[i] == SPACE && p.state == IN_ARG
    ensures Rest(p, str, i) == Rest(n, str, i + 1)
    ensures Alike(n, NONE, p.argz + [NUL], p.argv, p.ret)
  {
    n := Advanced(p, str, i);
    assert n.ret == p.ret;
  }

  lemma LiesNext(t: seq<Byte>, str: seq<Byte>, i: nat, k: nat)
    requires LiesAt(t, str, i) && k <= |t|
    ensures LiesAt(t[k..], str, i + k) && forall j :: i <= j < i + |t| ==> str[j] == t[j - i]
  {
    var was := str[i..i + |t|];
    assert str[i + k..i + |t|] == was[k..];
    assert forall j :: i <= j < i + |t| ==> str[j] == was[j - i];
  }

  /** Inside single quotes every byte but the quote is copied. */
  lemma {:induction false} QuotedBytes(p: Progress, str: seq<Byte>, i: nat, t: seq<Byte>) returns (q: Progress)
    requires p.state == IN_SQ && LiesAt(t, str, i) && SQUOTE !in t
    ensures Alike(q, IN_SQ, p.argz + t, p.argv, p.ret) && Rest(p, str, i) == Rest(q, str, i + |t|)
    decreases |t|
  {
    hide Rest, Advanced, LiesAt;
    LiesNext(t, str, i, 0);
    if t == [] {
      assert p.argz + t == p.argz;
      q := p;
    } else {
      LiesNext(t, str, i, 1);
      var n := QuotedStep(p, str, i);
      assert n.argz + t[1..] == p.argz + t;
      q := QuotedBytes(n, str, i + 1, t[1..]);
    }
  }

  /** Behind a backslash every byte is copied. */
  lemma {:induction false} EscapedBytes(p: Progress, str: seq<Byte>, i: nat, t: seq<Byte>) returns (q: Progress)
    requires p.state == IN_ARG && LiesAt(Escape(t), str, i)
    ensures Alike(q, IN_ARG, p.argz + t, p.argv, p.ret) && Rest(p, str, i) == Rest(q, str, i + 2 * |t|)
    decreases |t|
  {
    hide Rest, Advanced;
    if t == [] {
      assert p.argz + t == p.argz;
      q := p;
    } else {
      LiesNext(Escape(t), str, i, 2);
      assert Escape(t)[2..] == Escape(t[1..]);
      var n := EscapedStep(p, str, i);
      assert n.argz + t[1..] == p.argz + t;
      q := EscapedBytes(n, str, i + 2, t[1..]);
    }
  }

  lemma SingleArgument(p: Progress, str: seq<Byte>, i: nat, arg: seq<Byte>) returns (q: Progress)
    requires p.state == NONE && SQUOTE !in arg && LiesAt([SQUOTE] + arg + [SQUOTE], str, i)
    ensures Alike(q, IN_ARG, p.argz + arg, p.argv + [|p.argz|], p.ret)
    ensures Rest(p, str, i) == Rest(q, str, i + |arg| + 2)
  {
    hide Rest, Advanced, LiesAt;
    var t := [SQUOTE] + arg + [SQUOTE];
    LiesWithin(t, str, i, 0, 1);
    var n := QuotedStep(p, str, i);
    LiesWithin(t, str, i, 1, |t| - 1);
    assert t[1..|t| - 1] == arg;
    var m := QuotedBytes(n, str, i + 1, arg);
    LiesWithin(t, str, i, |t| - 1, |t|);
    q := QuotedStep(m, str, i + |arg| + 1);
  }

  lemma PlainStep(p: Progress, str: seq<Byte>, i: nat) returns (n: Progress)
    requires i < |str| && IsOrdinary(str[i]) && (p.state == NONE || p.state == IN_ARG)
    ensures Rest(p, str, i) == Rest(n, str, i + 1)
    ensures Alike(n, IN_ARG, p.argz + [str[i]], if p.state == NONE then p.argv + [|p.argz|] else p.argv, p.ret)
  {
    n := Advanced(p, str, i);
    assert n.ret == p.ret;
  }

  lemma {:induction false} PlainBytes(p: Progress, str: seq<Byte>, i: nat, t: seq<Byte>) returns (q: Progress)
    requires p.state == IN_ARG && LiesAt(t, str, i) && forall c :: c in t ==> IsOrdinary(c)
    ensures Alike(q, IN_ARG, p.argz + t, p.argv, p.ret) && Rest(p, str, i) == Rest(q, str, i + |t|)
    decreases |t|
  {
    hide Rest, Advanced, LiesAt, IsOrdinary;
    LiesNext(t, str, i, 0);
    if t == [] {
      assert p.argz + t == p.argz;
      q := p;
    } else {
      LiesNext(t, str, i, 1);
      assert t[0] in t && forall c :: c in t[1..] ==> c in t;
      var n := PlainStep(p, str, i);
      assert n.argz + t[1..] == p.argz + t;
      q := PlainBytes(n, str, i + 1, t[1..]);
    }
  }

  const BSLASH_IN_DQ := IN_DQ.(hasBslash := true)
  const BSLASH_IN_ARG := IN_ARG.(hasBslash := true)

  ghost function SignsInDouble(t: seq<Byte>): set<Anomaly> {
    if TILDE in t then {HasShvar} else {}
  }

  /** A byte between double quotes that needs no backslash. */
  lemma DoubleStep(p: Progress, str: seq<Byte>, i: nat) returns (n: Progress)
    requires i < |str| && p.state == IN_DQ && !IsEscapable(str[i])
    ensures Rest(p, str, i) == Rest(n, str, i + 1)
    ensures Alike(n, IN_DQ, p.argz + [str[i]], p.argv, p.ret + SignsInDouble([str[i]]))
  {
    n := Advanced(p, str, i);
    assert n.ret == p.ret + SignsInDouble([str[i]]);
  }

  /** A backslash between double quotes and what it escapes: but the escaped double quote ends
      the quotes instead of being copied. */
  lemma BackslashInDouble(p: Progress, str: seq<Byte>, i: nat) returns (n: Progress)
    requires i + 1 < |str| && p.state == IN_DQ && str[i] == BACKSLASH && IsEscapable(str[i + 1])
    ensures Rest(p, str, i) == Rest(n, str, i + 2)
    ensures str[i + 1] != DQUOTE ==> Alike(n, IN_DQ, p.argz + [str[i + 1]], p.argv, p.ret)
    ensures str[i + 1] == DQUOTE ==> Alike(n, BSLASH_IN_ARG, p.argz, p.argv, p.ret)
  {
    var m := Advanced(p, str, i);
    assert Alike(m, BSLASH_IN_DQ, p.argz, p.argv, p.ret) && Rest(p, str, i) == Rest(m, str, i + 1);
    n := Advanced(m, str, i + 1);
    assert n.ret == p.ret;
  }

  /** The double quotes themselves. */
  lemma DoubleQuoteStep(p: Progress, str: seq<Byte>, i: nat) returns (n: Progress)
    requires i < |str| && str[i] == DQUOTE && p.state in {NONE, IN_ARG, IN_DQ, BSLASH_IN_ARG}
    ensures Rest(p, str, i) == Rest(n, str, i + 1)
    ensures p.state == NONE ==> Alike(n, IN_DQ, p.argz, p.argv + [|p.argz|], p.ret)
    ensures p.state == IN_ARG ==> Alike(n, IN_DQ, p.argz, p.argv, p.ret)
    ensures p.state == IN_DQ ==> Alike(n, IN_ARG, p.argz, p.argv, p.ret)
    ensures p.state == BSLASH_IN_ARG ==> Alike(n, IN_ARG, p.argz + [DQUOTE], p.argv, p.ret)
  {
    n := Advanced(p, str, i);
    assert n.ret == p.ret;
  }

  lemma EscapeInDoubleBegins(t: seq<Byte>)
    requires t != []
    ensures var e := EscapeInDouble(t);
            if IsEscapable(t[0]) then e == [BACKSLASH, t[0]] + EscapeInDouble(t[1..])
            else e == [t[0]] + EscapeInDouble(t[1..])
    ensures var e, k := EscapeInDouble(t), if IsEscapable(t[0]) then 2 else 1;
            k <= |e| && e[k..|e|] == EscapeInDouble(t[1..]) && e[k - 1] == t[0]
  {
    hide IsEscapable;
    var rest := EscapeInDouble(t[1..]);
    Behind([BACKSLASH, t[0]], rest);
    Behind([t[0]], rest);
  }

  lemma Behind(front: seq<Byte>, rest: seq<Byte>)
    ensures (front + rest)[|front|..|front + rest|] == rest
    ensures front != [] ==> (front + rest)[|front| - 1] == front[|front| - 1]
  {
  }

  /** The next byte between double quotes, escaped if it has to be. */
  lemma NextInDouble(p: Progress, str: seq<Byte>, i: nat, t: seq<Byte>) returns (n: Progress, k: nat)
    requires t != [] && p.state == IN_DQ && LiesAt(EscapeInDouble(t), str, i) && t[0] != DQUOTE
    ensures Alike(n, IN_DQ, p.argz + [t[0]], p.argv, p.ret + SignsInDouble([t[0]]))
    ensures Rest(p, str, i) == Rest(n, str, i + k) && LiesAt(EscapeInDouble(t[1..]), str, i + k)
    ensures |EscapeInDouble(t)| == k + |EscapeInDouble(t[1..])|
  {
    hide Rest, Advanced, LiesAt, EscapeInDouble, IsEscapable, SignsInDouble;
    var e := EscapeInDouble(t);
    EscapeInDoubleBegins(t);
    k := if IsEscapable(t[0]) then 2 else 1;
    LiesWithin(e, str, i, 0, k);
    LiesWithin(e, str, i, k - 1, k);
    LiesWithin(e, str, i, k, |e|);
    if IsEscapable(t[0]) {
      n := BackslashInDouble(p, str, i);
      EscapableIsNoTilde(t[0]);
      assert p.ret + SignsInDouble([t[0]]) == p.ret;
    } else {
      n := DoubleStep(p, str, i);
    }
  }

  /** Between double quotes every byte but the double quote is read back. */
  lemma {:induction false} DoubleBytes(p: Progress, str: seq<Byte>, i: nat, t: seq<Byte>) returns (q: Progress)
    requires p.state == IN_DQ && LiesAt(EscapeInDouble(t), str, i) && DQUOTE !in t
    ensures Alike(q, IN_DQ, p.argz + t, p.argv, p.ret + SignsInDouble(t))
    ensures Rest(p, str, i) == Rest(q, str, i + |EscapeInDouble(t)|)
    decreases |t|
  {
    hide Rest, Advanced, LiesAt, EscapeInDouble, IsEscapable, SignsInDouble;
    if t == [] {
      NothingInDouble();
      assert p.argz + t == p.argz && p.ret + SignsInDouble(t) == p.ret;
      q := p;
    } else {
      var n, k := NextInDouble(p, str, i, t);
      q := DoubleBytes(n, str, i + k, t[1..]);
      assert n.argz + t[1..] == p.argz + t;
      SignsOfTwo(t);
      assert q.ret == p.ret + SignsInDouble(t);
    }
  }

  lemma EscapableIsNoTilde(c: Byte)
    requires IsEscapable(c)
    ensures SignsInDouble([c]) == {}
  {
  }

  lemma SignsOfTwo(t: seq<Byte>)
    requires t != []
    ensures SignsInDouble(t) == SignsInDouble([t[0]]) + SignsInDouble(t[1..])
  {
    assert t == [t[0]] + t[1..];
  }

  lemma NothingInDouble()
    ensures EscapeInDouble([]) == [] && SignsInDouble([]) == {}
  {
  }

  lemma DoubleArgument(p: Progress, str: seq<Byte>, i: nat, arg: seq<Byte>) returns (q: Progress)
    requires p.state == NONE && DQUOTE !in arg && LiesAt([DQUOTE] + EscapeInDouble(arg) + [DQUOTE], str, i)
    ensures Alike(q, IN_ARG, p.argz + arg, p.argv + [|p.argz|], p.ret + SignsInDouble(arg))
    ensures Rest(p, str, i) == Rest(q, str, i + |EscapeInDouble(arg)| + 2)
  {
    hide Rest, Advanced, LiesAt, EscapeInDouble;
    var e := EscapeInDouble(arg);
    var t := [DQUOTE] + e + [DQUOTE];
    LiesWithin(t, str, i, 0, 1);
    var n := DoubleQuoteStep(p, str, i);
    LiesWithin(t, str, i, 1, |t| - 1);
    assert t[1..|t| - 1] == e;
    var m := DoubleBytes(n, str, i + 1, arg);
    LiesWithin(t, str, i, |t| - 1, |t|);
    q := DoubleQuoteStep(m, str, i + |e| + 1);
  }

  lemma EscapedArgument(p: Progress, str: seq<Byte>, i: nat, arg: seq<Byte>) returns (q: Progress)
    requires p.state == NONE && arg != [] && LiesAt(Escape(arg), str, i)
    ensures Alike(q, IN_ARG, p.argz + arg, p.argv + [|p.argz|], p.ret)
    ensures Rest(p, str, i) == Rest(q, str, i + 2 * |arg|)
  {
    hide Rest, Advanced, LiesAt;
    var t := Escape(arg);
    LiesWithin(t, str, i, 0, 2);
    LiesWithin(t, str, i, 2, |t|);
    assert t[2..|t|] == Escape(arg[1..]);
    var n := EscapedStep(p, str, i);
    assert n.argz + arg[1..] == p.argz + arg;
    q := EscapedBytes(n, str, i + 2, arg[1..]);
  }

  lemma PlainArgument(p: Progress, str: seq<Byte>, i: nat, arg: seq<Byte>) returns (q: Progress)
    requires p.state == NONE && arg != [] && LiesAt(arg, str, i) && forall c :: c in arg ==> IsOrdinary(c)
    ensures Alike(q, IN_ARG, p.argz + arg, p.argv + [|p.argz|], p.ret)
    ensures Rest(p, str, i) == Rest(q, str, i + |arg|)
  {
    hide Rest, Advanced, LiesAt, IsOrdinary, React, Signs;
    LiesNext(arg, str, i, 1);
    assert i < |str| by { LiesWithin(arg, str, i, 0, 1); }
    assert arg[0] in arg && forall c :: c in arg[1..] ==> c in arg;
    var n := PlainStep(p, str, i);
    assert n.argz + arg[1..] == p.argz + arg;
    q := PlainBytes(n, str, i + 1, arg[1..]);
  }

  /** One argument, however written, is read as one argument. */
  lemma OneArgument(p: Progress, str: seq<Byte>, i: nat, a: Quoted) returns (q: Progress)
    requires p.state == NONE && Quotable(a) && LiesAt(Text(a), str, i)
    ensures Alike(q, IN_ARG, p.argz + a.arg, p.argv + [|p.argz|], p.ret)
    ensures Rest(p, str, i) == Rest(q, str, i + |Text(a)|)
  {
    hide Rest, Advanced, LiesAt, IsOrdinary, Escape, EscapeInDouble;
    match a
    case Single(arg) =>
      q := SingleArgument(p, str, i, arg);
    case Double(arg) =>
      q := DoubleArgument(p, str, i, arg);
      assert p.ret + SignsInDouble(arg) == p.ret;
    case Escaped(arg) =>
      q := EscapedArgument(p, str, i, arg);
    case Plain(arg) =>
      q := PlainArgument(p, str, i, arg);
  }

  lemma LiesWithin(t: seq<Byte>, str: seq<Byte>, i: nat, from: nat, to: nat)
    requires LiesAt(t, str, i) && from <= to <= |t|
    ensures LiesAt(t[from..to], str, i + from) && i + |t| <= |str|
    ensures from < to ==> str[i + from] == t[from]
  {
    SliceOfSlice(str, i, i + |t|, from, to);
    if from < to { assert str[i + from] == str[i..i + |t|][from]; }
  }

  /** The argument bytes and where the arguments begin in them, for a list of arguments. */
  ghost function Joined(qs: seq<Quoted>): seq<Byte> {
    if qs == [] then [] else if |qs| == 1 then qs[0].arg else qs[0].arg + [NUL] + Joined(qs[1..])
  }

  ghost function Starts(qs: seq<Quoted>, at: nat): seq<nat> {
    if qs == [] then [] else [at] + Starts(qs[1..], at + |qs[0].arg| + 1)
  }

  lemma JoinedBegins(argz: seq<Byte>, argv: seq<nat>, qs: seq<Quoted>)
    requires qs != []
    ensures |qs| == 1 ==> Joined(qs) == qs[0].arg && Starts(qs, |argz|) == [|argz|]
    ensures |qs| > 1 ==> argz + qs[0].arg + [NUL] + Joined(qs[1..]) == argz + Joined(qs)
    ensures |qs| > 1 ==> argv + [|argz|] + Starts(qs[1..], |argz + qs[0].arg + [NUL]|) == argv + Starts(qs, |argz|)
  {
    hide Joined, Starts;
    StartsNext(argv, qs, |argz|);
    JoinedNext(qs);
    if |qs| == 1 {
      assert Starts(qs[1..], |argz| + |qs[0].arg| + 1) == [] by { StartsLength(qs[1..], |argz| + |qs[0].arg| + 1); }
      assert [|argz|] + [] == [|argz|];
    } else {
      Rejoin(argz, qs[0].arg, [NUL], Joined(qs[1..]));
    }
  }

  lemma StartsNext(argv: seq<nat>, qs: seq<Quoted>, at: nat)
    requires qs != []
    ensures Starts(qs, at) == [at] + Starts(qs[1..], at + |qs[0].arg| + 1)
    ensures argv + [at] + Starts(qs[1..], at + |qs[0].arg| + 1) == argv + Starts(qs, at)
  {
  }

  lemma JoinedNext(qs: seq<Quoted>)
    requires qs != []
    ensures Joined(qs) == if |qs| == 1 then qs[0].arg else qs[0].arg + [NUL] + Joined(qs[1..])
  {
  }

  lemma Rejoin(a: seq<Byte>, b: seq<Byte>, c: seq<Byte>, d: seq<Byte>)
    ensures a + b + c + d == a + (b + c + d)
  {
  }

  /** A command line begins with its first argument and, if there are more, a space. */
  lemma CommandBegins(str: seq<Byte>, i: nat, qs: seq<Quoted>)
    requires qs != [] && i <= |str| && str[i..] == Command(qs)
    ensures var t := Text(qs[0]);
            && LiesAt(t, str, i)
            && (|qs| == 1 ==> i + |t| == |str|)
            && (|qs| > 1 ==> i + |t| < |str| && str[i + |t|] == SPACE && str[i + |t| + 1..] == Command(qs[1..]))
  {
    hide Text;
    var t, c := Text(qs[0]), str[i..];
    assert c[..|t|] == t;
    assert str[i..i + |t|] == c[..|t|];
    if |qs| > 1 {
      assert c[|t|] == SPACE && c[|t| + 1..] == Command(qs[1..]);
      assert str[i + |t|] == c[|t|] && str[i + |t| + 1..] == c[|t| + 1..];
    }
  }

  /** A quoted command line is cut into just its arguments, and nothing is amiss. */
  lemma {:induction false} AllArguments(p: Progress, str: seq<Byte>, i: nat, qs: seq<Quoted>) returns (q: Progress)
    requires p.state == NONE && qs != [] && AllQuotable(qs) && i <= |str| && str[i..] == Command(qs)
    ensures Alike(q, IN_ARG, p.argz + Joined(qs), p.argv + Starts(qs, |p.argz|), p.ret)
    ensures Rest(p, str, i) == q
    decreases |qs|
  {
    hide Rest, Advanced, Text, Quotable, Command, Joined, Starts;
    var t := Text(qs[0]);
    CommandBegins(str, i, qs);
    JoinedBegins(p.argz, p.argv, qs);
    var n := OneArgument(p, str, i, qs[0]);
    if |qs| == 1 {
      OneStep(n, str, i + |t|);
      q := n;
    } else {
      var m := SpaceStep(n, str, i + |t|);
      q := AllArguments(m, str, i + |t| + 1, qs[1..]);
    }
  }

  lemma {:induction false} NulEnds(s: seq<Byte>, at: nat, arg: seq<Byte>)
    requires LiesAt(arg, s, at) && NUL !in arg && at + |arg| < |s| && s[at + |arg|] == NUL
    ensures StringAt(s, at) == arg
    decreases |arg|
  {
    if arg != [] {
      LiesNext(arg, s, at, 1);
      NulEnds(s, at + 1, arg[1..]);
      assert arg == [arg[0]] + arg[1..];
    }
  }

  lemma ReadsBehind(s: seq<Byte>, front: seq<Byte>, arg: seq<Byte>)
    requires front + arg + [NUL] <= s && NUL !in arg
    ensures StringAt(s, |front|) == arg
  {
    hide StringAt;
    var t := front + arg + [NUL];
    assert s[..|t|] == t && s[|front|..|front| + |arg|] == t[|front|..|front| + |arg|] == arg;
    assert s[|front| + |arg|] == t[|front| + |arg|];
    NulEnds(s, |front|, arg);
  }

  /** Every argument can be read off as a C string. */
  lemma {:induction false} ArgumentsRead(s: seq<Byte>, front: seq<Byte>, qs: seq<Quoted>, k: nat)
    requires k < |qs| && AllQuotable(qs) && front + Joined(qs) + [NUL] <= s
    ensures |Starts(qs, |front|)| == |qs| && StringAt(s, Starts(qs, |front|)[k]) == qs[k].arg
    decreases |qs|
  {
    hide IsOrdinary, Joined, Starts, StringAt;
    StartsLength(qs, |front|);
    StartsNext([], qs, |front|);
    JoinedNext(qs);
    var more := front + qs[0].arg + [NUL];
    if |qs| > 1 {
      Rejoin(front, qs[0].arg, [NUL], Joined(qs[1..]));
      assert more + Joined(qs[1..]) + [NUL] == front + Joined(qs) + [NUL];
    }
    if k == 0 {
      assert more <= front + Joined(qs) + [NUL];
      ReadsBehind(s, front, qs[0].arg);
    } else {
      ArgumentsRead(s, more, qs[1..], k - 1);
    }
  }

  lemma {:induction false} StartsLength(qs: seq<Quoted>, at: nat)
    ensures |Starts(qs, at)| == |qs|
    decreases |qs|
  {
    if qs != [] { StartsLength(qs[1..], at + |qs[0].arg| + 1); }
  }

  /** From the start of a quoted command line on, the second pass finds just its arguments. */
  lemma CutExactly(p: Progress, str: seq<Byte>, i: nat, qs: seq<Quoted>, argz: seq<Byte>, argv: seq<nat>)
    requires Alike(p, NONE, [], [], {}) && qs != [] && AllQuotable(qs) && i <= |str| && str[i..] == Command(qs)
    requires var q := Rest(p, str, i); argv == q.argv && q.argz + [NUL] <= argz
    ensures Rest(p, str, i).ret == {} && Unbalanced(Rest(p, str, i).state) == {}
    ensures |argv| == |qs| && forall k :: 0 <= k < |qs| ==> StringAt(argz, argv[k]) == qs[k].arg
  {
    hide Rest, StringAt, Command;
    var q := AllArguments(p, str, i, qs);
    assert [] + Joined(qs) == Joined(qs) && [] + Starts(qs, 0) == Starts(qs, 0);
    StartsLength(qs, 0);
    forall k | 0 <= k < |qs| ensures StringAt(argz, argv[k]) == qs[k].arg {
      ArgumentsRead(argz, [], qs, k);
    }
  }

  /** What is read is only added to. */
  lemma {:induction false} OnlyMore(p: Progress, str: seq<Byte>, i: nat)
    ensures p.argz <= Rest(p, str, i).argz && p.argv <= Rest(p, str, i).argv && p.ret <= Rest(p, str, i).ret
    decreases |str| - i
  {
    hide Advanced, StepLength;
    OneStep(p, str, i);
    if i < |str| {
      OneStepMore(p, str, i);
      OnlyMore(Advanced(p, str, i), str, i + StepLength(p, str, i));
    }
  }

  lemma OneStepMore(p: Progress, str: seq<Byte>, i: nat)
    requires i < |str|
    ensures var q := Advanced(p, str, i); p.argz <= q.argz && p.argv <= q.argv && p.ret <= q.ret
    ensures StepLength(p, str, i) > 0
  {
    hide Signs, React;
  }

  /** Behind an escaped double quote that is not the last byte, something else stands in its
      place, or bytes are missing. */
  lemma {:induction false} BehindEscapedQuote(p: Progress, str: seq<Byte>, i: nat, u: seq<Byte>)
    requires p.state == BSLASH_IN_ARG && u != [] && i + |EscapeInDouble(u)| + 1 == |str|
    requires LiesAt(EscapeInDouble(u), str, i) && str[|str| - 1] == DQUOTE
    ensures var r := Rest(p, str, i).argz;
            r == p.argz + [DQUOTE] || (|r| > |p.argz| && r[|p.argz|] != DQUOTE)
    decreases |u|
  {
    hide Rest, Advanced, LiesAt, EscapeInDouble;
    var e := EscapeInDouble(u);
    EscapeInDoubleBegins(u);
    LiesWithin(e, str, i, 0, 1);
    var n := StepBehindQuote(p, str, i);
    if IsWhite(str[i]) {
      WhiteIsNotEscapable(str[i]);
      if |u| == 1 {
        NothingInDouble();
        var m := DoubleQuoteStep(n, str, i + 1);
        OneStep(m, str, i + 2);
      } else {
        LiesWithin(e, str, i, 1, |e|);
        assert e[1..|e|] == EscapeInDouble(u[1..]);
        BehindEscapedQuote(n, str, i + 1, u[1..]);
      }
    } else {
      assert str[i] != DQUOTE by { assert IsEscapable(DQUOTE); }
      OnlyMore(n, str, i + 1);
    }
  }

  lemma WhiteIsNotEscapable(c: Byte)
    requires IsWhite(c)
    ensures !IsEscapable(c) && c != BACKSLASH
  {
  }

  /** White space is dropped there, anything else but a double quote is copied. */
  lemma StepBehindQuote(p: Progress, str: seq<Byte>, i: nat) returns (n: Progress)
    requires p.state == BSLASH_IN_ARG && i < |str|
    ensures Rest(p, str, i) == Rest(n, str, i + 1)
    ensures IsWhite(str[i]) ==> n.state == BSLASH_IN_ARG && n.argz == p.argz
    ensures !IsWhite(str[i]) ==> n.argz == p.argz + [str[i]] && n.argv == p.argv
    ensures str[i] == BACKSLASH ==> Alike(n, IN_ARG, p.argz + [BACKSLASH], p.argv, p.ret)
  {
    n := Advanced(p, str, i);
  }

  /** Reads back as what it was written for, with nothing for a shell to do. */
  ghost predicate ReadsBack(str: seq<Byte>, arg: seq<Byte>) {
    var q := Rest(START, str, 0);
    q.argz == arg && q.argv == [0] && q.ret == {} && Unbalanced(q.state) == {}
  }

  /** Between double quotes a backslash is to escape the double quote too, but it does so only
      at the very end: elsewhere the quotes end there, and what follows is read without them. */
  lemma DoubleReadsBackIff(arg: seq<Byte>)
    requires NUL !in arg
    ensures ReadsBack([DQUOTE] + EscapeInDouble(arg) + [DQUOTE], arg)
            <==> TILDE !in arg && forall k :: 0 <= k < |arg| - 1 ==> arg[k] != DQUOTE
  {
    hide Rest, Advanced, LiesAt, EscapeInDouble;
    var e := EscapeInDouble(arg);
    var str := [DQUOTE] + e + [DQUOTE];
    if DQUOTE !in arg {
      assert str[0..0 + |str|] == str;
      LiesAll(str);
      var q := DoubleArgument(START, str, 0, arg);
      OneStep(q, str, |str|);
      assert [] + arg == arg && [] + [0] == [0] && {} + SignsInDouble(arg) == SignsInDouble(arg);
      IsReadBack(str, arg, q);
      assert HasShvar in {HasShvar} && forall j :: 0 <= j < |arg| ==> arg[j] in arg;
    } else {
      var k := FirstQuote(arg);
      if k + 1 == |arg| {
        QuoteAtEnd(arg, k, str);
        assert forall j :: 0 <= j < k ==> arg[j] in arg[..k];
      } else {
        QuoteInside(arg, k, str);
      }
    }
  }

  /** The argument a"" is read as a\ from between double quotes, and no shell is asked. */
  lemma DoubleQuoteExample()
    ensures var str := [DQUOTE] + EscapeInDouble([97, DQUOTE, DQUOTE]) + [DQUOTE];
            var q := Rest(START, str, 0);
            q.argz == [97, BACKSLASH] && q.argv == [0] && q.ret == {} && Unbalanced(q.state) == {}
  {
    hide Rest, Advanced, LiesAt, EscapeInDouble;
    ExampleText();
    var str := [DQUOTE] + EscapeInDouble([97, DQUOTE, DQUOTE]) + [DQUOTE];
    var i, o := UpToQuote([97, DQUOTE, DQUOTE], 1, str);
    var n := StepBehindQuote(o, str, 4);
    var m := DoubleQuoteStep(n, str, 5);
    var q := DoubleQuoteStep(m, str, 6);
    OneStep(q, str, 7);
  }

  lemma ExampleText()
    ensures EscapeInDouble([97, 34, 34]) == [97, 92, 34, 92, 34]
    ensures [97, DQUOTE, DQUOTE][..1] == [97] && [97, DQUOTE, DQUOTE][2..] == [DQUOTE]
    ensures EscapeInDouble([34]) == [92, 34] && SignsInDouble([97]) == {}
  {
    EscapeAround([97, 34, 34], 1);
    assert [97, 34, 34][..1] == [97] && [97, 34, 34][2..] == [34];
    assert EscapeInDouble([97]) == [97] && EscapeInDouble([34]) == [92, 34];
  }

  lemma LiesAll(str: seq<Byte>)
    ensures LiesAt(str, str, 0)
  {
    assert str[0..|str|] == str;
  }

  lemma {:induction false} FirstQuote(arg: seq<Byte>) returns (k: nat)
    requires DQUOTE in arg
    ensures k < |arg| && arg[k] == DQUOTE && DQUOTE !in arg[..k]
    decreases |arg|
  {
    if arg[0] == DQUOTE {
      k := 0;
    } else {
      k := FirstQuote(arg[1..]);
      assert arg[1..][..k] == arg[1..k + 1] && arg[..k + 1] == [arg[0]] + arg[1..k + 1];
      k := k + 1;
    }
  }

  lemma {:induction false} EscapeInDoubleJoins(t: seq<Byte>, u: seq<Byte>)
    ensures EscapeInDouble(t + u) == EscapeInDouble(t) + EscapeInDouble(u)
    decreases |t|
  {
    hide EscapeInDouble, IsEscapable;
    if t == [] {
      NothingInDouble();
      assert t + u == u;
    } else {
      var head := if IsEscapable(t[0]) then [BACKSLASH, t[0]] else [t[0]];
      EscapeInDoubleJoins(t[1..], u);
      EscapeInDoubleBegins(t);
      EscapeInDoubleBegins(t + u);
      assert (t + u)[1..] == t[1..] + u && (t + u)[0] == t[0];
      Associative(head, EscapeInDouble(t[1..]), EscapeInDouble(u));
    }
  }

  /** An argument whose only double quote is its last byte. */
  lemma QuoteAtEnd(arg: seq<Byte>, k: nat, str: seq<Byte>)
    requires k + 1 == |arg| && arg[k] == DQUOTE && DQUOTE !in arg[..k]
    requires str == [DQUOTE] + EscapeInDouble(arg) + [DQUOTE]
    ensures ReadsBack(str, arg) <==> TILDE !in arg
  {
    hide Rest, Advanced, LiesAt, EscapeInDouble, IsEscapable, IsOrdinary, SignsInDouble, ReadsBack;
    var q := ClosedAtEnd(arg, k, str);
    TildeAtFront(arg, k);
    IsReadBack(str, arg, q);
  }

  lemma IsReadBack(str: seq<Byte>, arg: seq<Byte>, q: Progress)
    requires Rest(START, str, 0) == q && Alike(q, IN_ARG, arg, [0], q.ret)
    ensures ReadsBack(str, arg) <==> q.ret == {}
  {
    hide Rest;
  }

  lemma OneLeft(str: seq<Byte>, i: nat)
    requires i < |str| && str[i..] == [] + [DQUOTE]
    ensures i + 1 == |str| && str[i] == DQUOTE
  {
    assert str[i] == str[i..][0];
  }

  lemma ClosedAtEnd(arg: seq<Byte>, k: nat, str: seq<Byte>) returns (q: Progress)
    requires k + 1 == |arg| && arg[k] == DQUOTE && DQUOTE !in arg[..k]
    requires str == [DQUOTE] + EscapeInDouble(arg) + [DQUOTE]
    ensures Rest(START, str, 0) == q && Alike(q, IN_ARG, arg, [0], SignsInDouble(arg[..k]))
  {
    hide Rest, Advanced, LiesAt, EscapeInDouble, IsEscapable, IsOrdinary, SignsInDouble;
    assert arg == arg[..k] + [DQUOTE] && arg[k + 1..] == [];
    var i, o := UpToQuote(arg, k, str);
    NothingInDouble();
    OneLeft(str, i);
    q := DoubleQuoteStep(o, str, i);
    OneStep(q, str, i + 1);
  }

  lemma TildeAtFront(arg: seq<Byte>, k: nat)
    requires k + 1 == |arg| && arg[k] == DQUOTE
    ensures SignsInDouble(arg[..k]) == {} <==> TILDE !in arg
  {
    assert arg == arg[..k] + [DQUOTE];
    assert HasShvar in {HasShvar};
  }

  /** An argument with a double quote in it before its last byte. */
  lemma QuoteInside(arg: seq<Byte>, k: nat, str: seq<Byte>)
    requires k + 1 < |arg| && arg[k] == DQUOTE && DQUOTE !in arg[..k]
    requires str == [DQUOTE] + EscapeInDouble(arg) + [DQUOTE]
    ensures Rest(START, str, 0).argz != arg
  {
    hide Rest, Advanced, LiesAt, EscapeInDouble, IsEscapable, SignsInDouble;
    var u := arg[k + 1..];
    var i, o := UpToQuote(arg, k, str);
    var b := EscapeInDouble(u);
    assert str[i..i + |b|] == str[i..][..|b|] == b && str[|str| - 1] == DQUOTE;
    LiesThere(b, str, i);
    BehindEscapedQuote(o, str, i, u);
  }

  lemma LiesThere(t: seq<Byte>, str: seq<Byte>, i: nat)
    requires i + |t| <= |str| && str[i..i + |t|] == t
    ensures LiesAt(t, str, i)
  {
  }

  /** Reading up to the first escaped double quote, and it. */
  lemma UpToQuote(arg: seq<Byte>, k: nat, str: seq<Byte>) returns (i: nat, o: Progress)
    requires k < |arg| && arg[k] == DQUOTE && DQUOTE !in arg[..k]
    requires str == [DQUOTE] + EscapeInDouble(arg) + [DQUOTE]
    ensures i < |str| && str[i..] == EscapeInDouble(arg[k + 1..]) + [DQUOTE]
    ensures Alike(o, BSLASH_IN_ARG, arg[..k], [0], SignsInDouble(arg[..k])) && Rest(START, str, 0) == Rest(o, str, i)
  {
    hide Rest, Advanced, LiesAt, EscapeInDouble, SignsInDouble;
    var t := arg[..k];
    var a, b := EscapeInDouble(t), EscapeInDouble(arg[k + 1..]);
    EscapeAround(arg, k);
    assert str == [DQUOTE] + a + [BACKSLASH, DQUOTE] + b + [DQUOTE];
    i := 1 + |a|;
    var n := DoubleQuoteStep(START, str, 0);
    assert str[1..1 + |a|] == a;
    LiesThere(a, str, 1);
    var m := DoubleBytes(n, str, 1, t);
    assert str[i] == BACKSLASH && str[i + 1] == DQUOTE;
    o := BackslashInDouble(m, str, i);
    assert [] + t == t && [] + [0] == [0] && {} + SignsInDouble(t) == SignsInDouble(t);
    i := i + 2;
  }

  lemma EscapeAround(arg: seq<Byte>, k: nat)
    requires k < |arg| && arg[k] == DQUOTE
    ensures EscapeInDouble(arg) == EscapeInDouble(arg[..k]) + [BACKSLASH, DQUOTE] + EscapeInDouble(arg[k + 1..])
  {
    hide EscapeInDouble;
    assert arg == arg[..k] + arg[k..];
    EscapeInDoubleJoins(arg[..k], arg[k..]);
    EscapeInDoubleBegins(arg[k..]);
    assert arg[k..][1..] == arg[k + 1..];
  }

  /** What a shell would be needed for is noticed, whatever comes before and after it: outside
      of quotes each of these characters, between double quotes all but what those take the
      meaning from, and between single quotes none. */
  lemma SignsAreNoticed(p: Progress, str: seq<Byte>, i: nat)
    requires i < |str| && !p.state.hasBslash
    ensures var c, r := str[i], Rest(p, str, i).ret;
            && (c == 124 && !p.state.inSq && !p.state.inDq ==> HasRedir in r)
            && ((c == 38 || c == 59) && !p.state.inSq && !p.state.inDq ==> HasJobControl in r)
            && ((c == 40 || c == 41) && !p.state.inSq && !p.state.inDq ==> HasParen in r)
            && ((c == 42 || c == 63) && !p.state.inSq && !p.state.inDq ==> HasWildcard in r)
            && (c == 61 && !p.state.inSq && !p.state.inDq && !p.seenSpace ==> HasShvar in r)
            && (c == 126 && !p.state.inSq ==> HasShvar in r)
            && (c == 96 && !p.state.inSq ==> HasSubcommand in r)
            && (c == 36 && !p.state.inSq && At(str, i + 1) == 40 ==> HasSubcommand in r)
            && (c == 36 && !p.state.inSq && At(str, i + 1) != 40 ==> HasShvar in r)
  {
    hide Rest, Advanced;
    OneStep(p, str, i);
    WhatIsSeen(p, str, i);
    OnlyMore(Advanced(p, str, i), str, i + StepLength(p, str, i));
  }

  /** No character is a sign between single quotes, and none is more than one sign. */
  lemma SignsAreFew(s: State, c: Byte, next: Byte, seenSpace: bool)
    ensures s.inSq ==> Signs(s, c, next, seenSpace) == {}
    ensures |Signs(s, c, next, seenSpace)| <= 1
    ensures IsOrdinary(c) || (s.hasBslash && IsEscapable(c)) ==> Signs(s, c, next, seenSpace) == {}
  {
  }

  /** Behind an unquoted ampersand or semicolon no argument begins or ends any more: all that
      is kept goes on the one before. */
  lemma {:induction false} NoMoreArguments(p: Progress, str: seq<Byte>, i: nat)
    requires p.state == SPECIAL ||
             (i < |str| && (str[i] == 38 || str[i] == 59) && !p.state.InQuotes() && !p.state.hasBslash)
    ensures Rest(p, str, i).argv == p.argv && (i < |str| || p.state == SPECIAL ==> Rest(p, str, i).state == SPECIAL)
    decreases |str| - i
  {
    hide Signs;
    if i < |str| { NoMoreArguments(Advanced(p, str, i), str, i + StepLength(p, str, i)); }
  }

  /** A quote that is not closed is noticed at the end. */
  lemma UnclosedSingle(p: Progress, str: seq<Byte>, i: nat, t: seq<Byte>)
    requires (p.state == NONE || p.state == IN_ARG) && i <= |str| && str[i..] == [SQUOTE] + t && SQUOTE !in t
    ensures Unbalanced(Rest(p, str, i).state) == {HasUbsq}
  {
    hide Rest, Advanced, LiesAt;
    assert str[i] == str[i..][0] && str[i + 1..i + 1 + |t|] == str[i..][1..] == t;
    LiesThere(t, str, i + 1);
    var n := OpensSingle(p, str, i);
    var q := QuotedBytes(n, str, i + 1, t);
    OneStep(q, str, |str|);
  }

  lemma OpensSingle(p: Progress, str: seq<Byte>, i: nat) returns (n: Progress)
    requires (p.state == NONE || p.state == IN_ARG) && i < |str| && str[i] == SQUOTE
    ensures Rest(p, str, i) == Rest(n, str, i + 1) && n.state == IN_SQ
  {
    n := Advanced(p, str, i);
  }

  lemma UnclosedDouble(p: Progress, str: seq<Byte>, i: nat, t: seq<Byte>)
    requires (p.state == NONE || p.state == IN_ARG) && DQUOTE !in t
    requires i <= |str| && str[i..] == [DQUOTE] + EscapeInDouble(t)
    ensures Unbalanced(Rest(p, str, i).state) == {HasUbdq}
  {
    hide Rest, Advanced, LiesAt, EscapeInDouble;
    var e := EscapeInDouble(t);
    assert str[i] == str[i..][0] && str[i + 1..i + 1 + |e|] == str[i..][1..] == e;
    LiesThere(e, str, i + 1);
    var n := DoubleQuoteStep(p, str, i);
    var q := DoubleBytes(n, str, i + 1, t);
    OneStep(q, str, |str|);
  }
}
