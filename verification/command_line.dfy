/** The first pass over a command line, which finds the variables set in front of the
    command, and the two passes together. */
module CommandLine {
  import opened Bytes
  import opened RunCmd

  /** The state bits of the first pass. */
  datatype EnvState = EnvState(inVar: bool, inVal: bool, inSq: bool, inDq: bool)
  {
    predicate InQuotes() {
      inSq || inDq
    }
  }

  const ENV_NONE := EnvState(false, false, false, false)
  const IN_VAR := EnvState(true, false, false, false)
  const IN_VAL := EnvState(false, true, false, false)

  predicate IsAlpha(c: Byte) {
    65 <= c <= 90 || 97 <= c <= 122
  }

  predicate IsAlnum(c: Byte) {
    IsAlpha(c) || 48 <= c <= 57
  }

  /** Where the first pass has come to: the bytes of names and values so far, where each of
      them begins, how many of them are complete, and where the command may start. */
  datatype Finding = Finding(state: EnvState, going: bool, envz: seq<Byte>, env: seq<nat>, envc: nat, argstart: nat)

  const ENV_START := Finding(ENV_NONE, true, [], [], 0, 0)

  /** What a character does: it is kept, it ends the search, or it changes the state, perhaps
      beginning or ending a name or a value. */
  datatype Effect = Keep | Abort | Turn(s: EnvState) | BeginName | EndName | EndValue

  function EffectOf(s: EnvState, c: Byte): Effect {
    if IsWhite(c) then
      if s.InQuotes() then Keep else if s == IN_VAR then Abort else if s == IN_VAL then EndValue else Turn(s)
    else if c == EQUALS then
      if s == IN_VAR then EndName else Keep
    else if c == DOLLAR then
      if s.inSq then Keep else Abort
    else if c == SQUOTE then
      if s.inDq then Keep else Turn(s.(inSq := !s.inSq))
    else if c == DQUOTE then
      if s.inSq then Keep else Turn(s.(inDq := !s.inDq))
    else if s.InQuotes() || s.inVal then Keep
    else if s.inVar && (IsAlnum(c) || c == UNDERLINE) then Keep
    else if IsAlpha(c) || c == UNDERLINE then BeginName
    else Abort
  }

  ghost function Found(p: Finding, c: Byte, i: nat): Finding {
    match EffectOf(p.state, c)
    case Keep => p.(envz := p.envz + [c])
    case Abort => p.(going := false)
    case Turn(s) => p.(state := s)
    case BeginName => p.(state := IN_VAR, env := p.env + [|p.envz|], envz := p.envz + [c])
    case EndName => p.(state := IN_VAL, env := p.env + [|p.envz| + 1], envz := p.envz + [NUL])
    case EndValue => p.(state := ENV_NONE, envz := p.envz + [NUL], argstart := i, envc := |p.env|)
  }

  ghost function Search(p: Finding, str: seq<Byte>, i: nat): Finding
    decreases |str| - i
  {
    if i >= |str| || !p.going then p else Search(Found(p, str[i], i), str, i + 1)
  }

  lemma SearchStep(p: Finding, str: seq<Byte>, i: nat)
    ensures Search(p, str, i) == if i >= |str| || !p.going then p else Search(Found(p, str[i], i), str, i + 1)
  {
  }

  /** Without an equals sign no name and no value is ever complete. */
  lemma {:induction false} NoEqualsNoVariables(p: Finding, str: seq<Byte>, i: nat)
    requires EQUALS !in str && !p.state.inVal
    ensures Search(p, str, i).envc == p.envc && Search(p, str, i).argstart == p.argstart
    decreases |str| - i
  {
    if i < |str| && p.going {
      NoEqualsNoVariables(Found(p, str[i], i), str, i + 1);
    }
  }

  /** The first pass of runcmd_cmd2strv: leading VAR=value words, their names and values
      NUL-terminated in envz, and where the command starts. */
  method SplitEnvironment(str: seq<Byte>) returns (envz: seq<Byte>, env: seq<nat>, envc: nat, argstart: nat)
    requires NUL !in str
    ensures argstart <= |str| && envc <= |env| && |envz| <= |str| + 1
    ensures var p := Search(ENV_START, str, 0);
            envz == p.envz + [NUL] && env == p.env && envc == p.envc && argstart == p.argstart
    ensures EQUALS !in str ==> envc == 0 && argstart == 0
  {
    hide Search, EffectOf;
    ghost var p := ENV_START;
    var state, going := ENV_NONE, true;
    envz, env, envc, argstart := [], [], 0, 0;
    var i := 0;
    while i < |str| && going
      invariant i <= |str| && argstart <= |str| && envc <= |env| && |envz| <= i
      invariant p == Finding(state, going, envz, env, envc, argstart)
      invariant Search(ENV_START, str, 0) == Search(p, str, i)
    {
      SearchStep(p, str, i);
      p := Found(p, str[i], i);
      var c := str[i];
      var effect := Judge(state, c);
      if effect.Abort? {
        going := false;
      } else if effect.Turn? {
        state := effect.s;
      } else if effect.EndValue? {
        state := ENV_NONE;
        envz := envz + [NUL];
        argstart := i;
        envc := |env|;
      } else if effect.EndName? {
        state := IN_VAL;
        envz := envz + [NUL];
        env := env + [|envz|];
      } else {
        if effect.BeginName? {
          state := IN_VAR;
          env := env + [|envz|];
        }
        envz := envz + [c];
      }
      i := i + 1;
    }
    SearchStep(p, str, i);
    if EQUALS !in str { NoEqualsNoVariables(ENV_START, str, 0); }
    envz := envz + [NUL];
  }

  /** The switch of the first pass. */
  method Judge(state: EnvState, c: Byte) returns (effect: Effect)
    ensures effect == EffectOf(state, c)
  {
    if IsWhite(c) {
      if state.InQuotes() {
        return Keep;
      }
      if state == IN_VAR {
        return Abort;
      }
      if state == IN_VAL {
        return EndValue;
      }
      return Turn(state);
    } else if c == EQUALS {
      if state.InQuotes() {
        return Keep;
      }
      if state == IN_VAR {
        return EndName;
      }
      return Keep;
    } else if c == DOLLAR {
      if state.inSq {
        return Keep;
      }
      return Abort;
    } else if c == SQUOTE {
      if state.inDq {
        return Keep;
      }
      return Turn(state.(inSq := !state.inSq));
    } else if c == DQUOTE {
      if state.inSq {
        return Keep;
      }
      return Turn(state.(inDq := !state.inDq));
    } else {
      if state.InQuotes() {
        return Keep;
      }
      if state.inVal {
        return Keep;
      }
      if IsAlnum(c) || c == UNDERLINE {
        if state.inVar {
          return Keep;
        }
        if IsAlpha(c) || c == UNDERLINE {
          return BeginName;
        }
      }
      return Abort;
    }
  }

  /** What goes on looking for variables and what does not: a dollar sign outside of single
      quotes ends the search, white space in a name does, and so does a byte no name can begin
      with; quotes are kept between quotes of the other kind, and everything in a value that
      is no white space. */
  lemma SearchEnds(s: EnvState, c: Byte)
    ensures c == 36 ==> (EffectOf(s, c).Abort? <==> !s.inSq)
    ensures c == 32 || c == 9 || c == 10 || c == 13 ==> (EffectOf(s, c).Abort? <==> s == IN_VAR)
    ensures c == 32 || c == 9 || c == 10 || c == 13 ==> (EffectOf(s, c).EndValue? <==> s == IN_VAL)
    ensures s.inSq && c != 39 ==> EffectOf(s, c) == Keep
    ensures s.inDq && !s.inSq && c != 34 && c != 36 ==> EffectOf(s, c) == Keep
    ensures s == IN_VAL && c !in {9, 10, 13, 32, 34, 36, 39} ==> EffectOf(s, c) == Keep
    ensures s == ENV_NONE && 48 <= c <= 57 ==> EffectOf(s, c) == Abort
    ensures s == ENV_NONE && (65 <= c <= 90 || 97 <= c <= 122 || c == 95) ==> EffectOf(s, c) == BeginName
    ensures s == IN_VAR && 48 <= c <= 57 ==> EffectOf(s, c) == Keep
    ensures EffectOf(s, c).EndName? <==> c == 61 && s == IN_VAR
  {
  }

  /** A variable set in front of the command, its value plain or in quotes. */
  datatype Definition = Definition(name: seq<Byte>, value: seq<Byte>, isQuoted: bool)

  ghost predicate IsName(name: seq<Byte>) {
    && name != [] && (IsAlpha(name[0]) || name[0] == UNDERLINE)
    && forall k :: 0 <= k < |name| ==> IsAlnum(name[k]) || name[k] == UNDERLINE
  }

  ghost predicate IsPlain(value: seq<Byte>) {
    forall k :: 0 <= k < |value| ==> !IsWhite(value[k]) && value[k] != DQUOTE && value[k] != DOLLAR
  }

  ghost predicate Definable(d: Definition) {
    && IsName(d.name) && NUL !in d.value && SQUOTE !in d.value && (d.isQuoted || IsPlain(d.value))
  }

  ghost predicate AllDefinable(ds: seq<Definition>) {
    forall i :: 0 <= i < |ds| ==> Definable(ds[i])
  }

  ghost function ValueText(d: Definition): seq<Byte> {
    if d.isQuoted then [SQUOTE] + d.value + [SQUOTE] else d.value
  }

  /** The definitions in front of a command, a space behind each. */
  ghost function Leading(ds: seq<Definition>): seq<Byte> {
    if ds == [] then [] else ds[0].name + [EQUALS] + ValueText(ds[0]) + [SPACE] + Leading(ds[1..])
  }

  /** Names and values as they are kept, and where each of them begins. */
  ghost function Held(ds: seq<Definition>): seq<Byte> {
    if ds == [] then [] else ds[0].name + [NUL] + ds[0].value + [NUL] + Held(ds[1..])
  }

  ghost function Places(ds: seq<Definition>, at: nat): (r: seq<nat>)
    ensures |r| == 2 * |ds|
    decreases |ds|
  {
    if ds == [] then [] else
      [at, at + |ds[0].name| + 1] + Places(ds[1..], at + |ds[0].name| + |ds[0].value| + 2)
  }

  lemma {:induction false} RestOfName(p: Finding, str: seq<Byte>, i: nat, t: seq<Byte>) returns (q: Finding)
    requires p.going && p.state == IN_VAR && LiesAt(t, str, i)
    requires forall k :: 0 <= k < |t| ==> IsAlnum(t[k]) || t[k] == UNDERLINE
    ensures q == p.(envz := p.envz + t) && Search(p, str, i) == Search(q, str, i + |t|)
    decreases |t|
  {
    hide Search;
    if t == [] {
      assert p.envz + t == p.envz;
      q := p;
    } else {
      LiesNext(t, str, i, 1);
      SearchStep(p, str, i);
      var n := p.(envz := p.envz + [t[0]]);
      assert Found(p, str[i], i) == n;
      assert n.envz + t[1..] == p.envz + t;
      q := RestOfName(n, str, i + 1, t[1..]);
    }
  }

  /** A name, up to and with the equals sign. */
  lemma NameFound(p: Finding, str: seq<Byte>, i: nat, name: seq<Byte>) returns (q: Finding)
    requires p.going && p.state == ENV_NONE && IsName(name) && LiesAt(name + [EQUALS], str, i)
    ensures q == p.(state := IN_VAL, envz := p.envz + name + [NUL], env := p.env + [|p.envz|, |p.envz| + |name| + 1])
    ensures Search(p, str, i) == Search(q, str, i + |name| + 1)
  {
    hide Search, Found, LiesAt;
    LiesInThree([name[0]], name[1..], [EQUALS], str, i) by {
      assert [name[0]] + name[1..] + [EQUALS] == name + [EQUALS];
    }
    LiesNext([name[0]], str, i, 0);
    LiesNext([EQUALS], str, i + |name|, 0);
    SearchStep(p, str, i);
    var n := NameBegins(p, name[0], i);
    var m := RestOfName(n, str, i + 1, name[1..]);
    assert m.envz == p.envz + name;
    SearchStep(m, str, i + |name|);
    q := NameEnds(m, i + |name|);
    assert q.env == p.env + [|p.envz|, |p.envz| + |name| + 1];
  }

  lemma NameBegins(p: Finding, c: Byte, i: nat) returns (q: Finding)
    requires p.state == ENV_NONE && (IsAlpha(c) || c == UNDERLINE)
    ensures q == Found(p, c, i) == p.(state := IN_VAR, env := p.env + [|p.envz|], envz := p.envz + [c])
  {
    q := Found(p, c, i);
  }

  lemma NameEnds(p: Finding, i: nat) returns (q: Finding)
    requires p.state == IN_VAR
    ensures q == Found(p, EQUALS, i)
              == p.(state := IN_VAL, env := p.env + [|p.envz| + 1], envz := p.envz + [NUL])
  {
    q := Found(p, EQUALS, i);
  }

  /** The bytes of a value, plain or between single quotes. */
  lemma {:induction false} ValueBytes(p: Finding, str: seq<Byte>, i: nat, t: seq<Byte>) returns (q: Finding)
    requires p.going && p.state == IN_VAL.(inSq := p.state.inSq) && LiesAt(t, str, i) && SQUOTE !in t
    requires p.state.inSq || IsPlain(t)
    ensures q == p.(envz := p.envz + t) && Search(p, str, i) == Search(q, str, i + |t|)
    decreases |t|
  {
    hide Search;
    if t == [] {
      assert p.envz + t == p.envz;
      q := p;
    } else {
      LiesNext(t, str, i, 1);
      SearchStep(p, str, i);
      var n := p.(envz := p.envz + [t[0]]);
      assert Found(p, str[i], i) == n;
      assert n.envz + t[1..] == p.envz + t;
      q := ValueBytes(n, str, i + 1, t[1..]);
    }
  }

  lemma QuotedValue(p: Finding, str: seq<Byte>, i: nat, value: seq<Byte>) returns (q: Finding)
    requires p.going && p.state == IN_VAL && SQUOTE !in value && LiesAt([SQUOTE] + value + [SQUOTE], str, i)
    ensures q == p.(envz := p.envz + value) && Search(p, str, i) == Search(q, str, i + |value| + 2)
  {
    hide Search, LiesAt;
    LiesInThree([SQUOTE], value, [SQUOTE], str, i);
    LiesNext([SQUOTE], str, i, 0);
    LiesNext([SQUOTE], str, i + 1 + |value|, 0);
    SearchStep(p, str, i);
    var n := p.(state := IN_VAL.(inSq := true));
    assert Found(p, SQUOTE, i) == n;
    var o := ValueBytes(n, str, i + 1, value);
    SearchStep(o, str, i + 1 + |value|);
    q := p.(envz := p.envz + value);
    assert Found(o, SQUOTE, i + 1 + |value|) == q;
  }

  /** A value, and the space behind it. */
  lemma ValueFound(p: Finding, str: seq<Byte>, i: nat, d: Definition) returns (q: Finding)
    requires p.going && p.state == IN_VAL && Definable(d) && LiesAt(ValueText(d) + [SPACE], str, i)
    ensures q == p.(state := ENV_NONE, envz := p.envz + d.value + [NUL], argstart := i + |ValueText(d)|, envc := |p.env|)
    ensures Search(p, str, i) == Search(q, str, i + |ValueText(d)| + 1)
  {
    hide Search, LiesAt, IsName, IsPlain, Found;
    var v := |ValueText(d)|;
    assert ValueText(d) + [SPACE] + [] == ValueText(d) + [SPACE];
    LiesInThree(ValueText(d), [SPACE], [], str, i);
    LiesNext([SPACE], str, i + v, 0);
    var m;
    if d.isQuoted {
      m := QuotedValue(p, str, i, d.value);
    } else {
      m := ValueBytes(p, str, i, d.value);
    }
    SearchStep(m, str, i + v);
    q := ValueEnds(m, i + v);
  }

  lemma ValueEnds(p: Finding, i: nat) returns (q: Finding)
    requires p.state == IN_VAL
    ensures q == Found(p, SPACE, i) == p.(state := ENV_NONE, envz := p.envz + [NUL], argstart := i, envc := |p.env|)
  {
    q := Found(p, SPACE, i);
  }

  /** All definitions in front of a command are found, and the command starts behind them. */
  lemma {:induction false} AllDefinitions(p: Finding, str: seq<Byte>, i: nat, ds: seq<Definition>) returns (q: Finding)
    requires p.going && p.state == ENV_NONE && AllDefinable(ds) && LiesAt(Leading(ds), str, i)
    ensures q.going && q.state == ENV_NONE && q.envz == p.envz + Held(ds) && q.env == p.env + Places(ds, |p.envz|)
    ensures if ds == [] then q.envc == p.envc && q.argstart == p.argstart
            else q.envc == |q.env| && q.argstart == i + |Leading(ds)| - 1
    ensures Search(p, str, i) == Search(q, str, i + |Leading(ds)|)
    decreases |ds|
  {
    hide Search, Definable, ValueText, Leading, Held, Places, LiesAt;
    NothingHeld();
    if ds == [] {
      assert p.envz + [] == p.envz && p.env + [] == p.env;
      q := p;
    } else {
      var d, rest := ds[0], ds[1..];
      var a, v := |d.name| + 1, |ValueText(d)| + 1;
      DefinitionLies(ds, str, i);
      NameOf(d);
      var n := NameFound(p, str, i, d.name);
      var m := ValueFound(n, str, i + a, d);
      HeldNext(p.envz, p.env, ds);
      q := AllDefinitions(m, str, i + a + v, rest);
    }
  }

  lemma NothingHeld()
    ensures Leading([]) == [] && Held([]) == [] && forall at :: Places([], at) == []
  {
  }

  lemma HeldNext(front: seq<Byte>, env: seq<nat>, ds: seq<Definition>)
    requires ds != []
    ensures var d, rest := ds[0], ds[1..];
            var more := front + d.name + [NUL] + d.value + [NUL];
            && front + Held(ds) == more + Held(rest)
            && env + Places(ds, |front|) == env + [|front|, |front| + |d.name| + 1] + Places(rest, |more|)
  {
    hide Places;
    var d, rest := ds[0], ds[1..];
    assert front + (d.name + [NUL] + d.value + [NUL] + Held(rest)) == front + d.name + [NUL] + d.value + [NUL] + Held(rest);
    PlacesNext(ds, |front|);
  }

  lemma PlacesNext(ds: seq<Definition>, at: nat)
    requires ds != []
    ensures Places(ds, at)
         == [at, at + |ds[0].name| + 1] + Places(ds[1..], at + |ds[0].name| + |ds[0].value| + 2)
  {
  }

  lemma NameOf(d: Definition)
    requires Definable(d)
    ensures IsName(d.name)
  {
  }

  lemma DefinitionLies(ds: seq<Definition>, str: seq<Byte>, i: nat)
    requires ds != [] && LiesAt(Leading(ds), str, i)
    ensures var d := ds[0];
            var a, v := |d.name| + 1, |ValueText(d)| + 1;
            && LiesAt(d.name + [EQUALS], str, i) && LiesAt(ValueText(d) + [SPACE], str, i + a)
            && LiesAt(Leading(ds[1..]), str, i + a + v) && |Leading(ds)| == a + v + |Leading(ds[1..])|
  {
    hide ValueText, LiesAt;
    var d := ds[0];
    var x, y, z := d.name + [EQUALS], ValueText(d) + [SPACE], Leading(ds[1..]);
    assert Leading(ds) == x + y + z;
    LiesInThree(x, y, z, str, i);
  }

  lemma LiesInThree(x: seq<Byte>, y: seq<Byte>, z: seq<Byte>, str: seq<Byte>, i: nat)
    requires LiesAt(x + y + z, str, i)
    ensures LiesAt(x, str, i) && LiesAt(y, str, i + |x|) && LiesAt(z, str, i + |x| + |y|)
  {
    hide LiesAt;
    var t := x + y + z;
    assert t[0..|x|] == x && t[|x|..|x| + |y|] == y && t[|x| + |y|..|t|] == z;
    LiesWithin(t, str, i, 0, |x|);
    LiesWithin(t, str, i, |x|, |x| + |y|);
    LiesWithin(t, str, i, |x| + |y|, |t|);
  }

  /** Every name and every value can be read off as a C string. */
  lemma {:induction false} DefinitionsRead(s: seq<Byte>, front: seq<Byte>, ds: seq<Definition>, k: nat)
    requires k < |ds| && AllDefinable(ds) && front + Held(ds) <= s
    ensures StringAt(s, Places(ds, |front|)[2 * k]) == ds[k].name
    ensures StringAt(s, Places(ds, |front|)[2 * k + 1]) == ds[k].value
    decreases |ds|
  {
    hide StringAt, Places, Definable;
    var d, rest := ds[0], ds[1..];
    PlacesNext(ds, |front|);
    if k == 0 {
      HeldReads(s, front, d, Held(rest));
    } else {
      var more := front + d.name + [NUL] + d.value + [NUL];
      HeldNext(front, [], ds);
      DefinitionsRead(s, more, rest, k - 1);
      var here, there := Places(ds, |front|), Places(rest, |more|);
      assert here[2 * k] == there[2 * (k - 1)] && here[2 * k + 1] == there[2 * (k - 1) + 1];
    }
  }

  lemma HeldReads(s: seq<Byte>, front: seq<Byte>, d: Definition, rest: seq<Byte>)
    requires Definable(d) && front + (d.name + [NUL] + d.value + [NUL] + rest) <= s
    ensures StringAt(s, |front|) == d.name && StringAt(s, |front| + |d.name| + 1) == d.value
  {
    hide StringAt;
    var t := front + (d.name + [NUL] + d.value + [NUL] + rest);
    var a := |front| + |d.name|;
    var b := a + 1 + |d.value|;
    assert s[|front|..a] == t[|front|..a] == d.name && s[a] == t[a] == NUL;
    assert s[a + 1..b] == t[a + 1..b] == d.value && s[b] == t[b] == NUL;
    NoNulInName(d.name);
    NulEnds(s, |front|, d.name);
    NulEnds(s, a + 1, d.value);
  }

  lemma NoNulInName(name: seq<Byte>)
    requires IsName(name)
    ensures NUL !in name
  {
  }

  /** From there on no name is ended, and so no variable is set. */
  ghost predicate NamesNothing(str: seq<Byte>, i: nat, s: EnvState)
    decreases |str| - i
  {
    i >= |str|
    || match EffectOf(s, str[i])
       case Keep => NamesNothing(str, i + 1, s)
       case Abort => true
       case Turn(t) => NamesNothing(str, i + 1, t)
       case BeginName => NamesNothing(str, i + 1, IN_VAR)
       case EndName => false
       case EndValue => false
  }

  /** From there on no more variables are found. */
  lemma {:induction false} NothingMore(p: Finding, str: seq<Byte>, i: nat)
    requires p.going && NamesNothing(str, i, p.state)
    ensures var q := Search(p, str, i);
            p.env <= q.env && q.envc == p.envc && q.argstart == p.argstart && p.envz <= q.envz
    decreases |str| - i
  {
    if i < |str| {
      var n := Found(p, str[i], i);
      if n.going { NothingMore(n, str, i + 1); }
    }
  }

  const ENV_SQ := ENV_NONE.(inSq := true)
  const ENV_DQ := ENV_NONE.(inDq := true)

  lemma {:induction false} SingleNamesNothing(str: seq<Byte>, i: nat, t: seq<Byte>)
    requires LiesAt(t, str, i) && SQUOTE !in t && i + |t| < |str| && str[i + |t|] == SQUOTE
    requires NamesNothing(str, i + |t| + 1, ENV_NONE)
    ensures NamesNothing(str, i, ENV_SQ)
    decreases |t|
  {
    if t != [] {
      LiesNext(t, str, i, 1);
      SingleNamesNothing(str, i + 1, t[1..]);
    }
  }

  /** Between double quotes a dollar sign ends the search, and everything else is kept. */
  lemma {:induction false} DoubleNamesNothing(str: seq<Byte>, i: nat, t: seq<Byte>)
    requires LiesAt(t, str, i) && DQUOTE !in t && i + |t| < |str| && str[i + |t|] == DQUOTE
    requires NamesNothing(str, i + |t| + 1, ENV_NONE)
    ensures NamesNothing(str, i, ENV_DQ)
    decreases |t|
  {
    if t != [] {
      LiesNext(t, str, i, 1);
      DoubleNamesNothing(str, i + 1, t[1..]);
    }
  }

  lemma {:induction false} NoQuoteToEscape(t: seq<Byte>)
    requires DQUOTE !in t
    ensures DQUOTE !in EscapeInDouble(t)
  {
    if t != [] {
      assert t[0] in t && forall c :: c in t[1..] ==> c in t;
      NoQuoteToEscape(t[1..]);
    }
  }

  /** A plain word may begin a name, but no equals sign ends it. */
  lemma {:induction false} PlainNamesNothing(str: seq<Byte>, i: nat, t: seq<Byte>)
    requires LiesAt(t, str, i) && (forall c :: c in t ==> IsOrdinary(c))
    requires i + |t| == |str| || str[i + |t|] == SPACE
    ensures NamesNothing(str, i, IN_VAR)
    decreases |t|
  {
    hide LiesAt;
    if t == [] {
      WordEnds(str, i);
    } else {
      LiesNext(t, str, i, 1);
      assert t[0] in t && (forall c :: c in t[1..] ==> c in t);
      PlainNamesNothing(str, i + 1, t[1..]);
      OrdinaryNamesNothing(str, i, IN_VAR);
    }
  }

  lemma WordEnds(str: seq<Byte>, i: nat)
    requires i >= |str| || str[i] == SPACE
    ensures NamesNothing(str, i, IN_VAR)
  {
  }

  lemma OrdinaryNamesNothing(str: seq<Byte>, i: nat, s: EnvState)
    requires i < |str| && IsOrdinary(str[i]) && NamesNothing(str, i + 1, IN_VAR) && (s == IN_VAR || s == ENV_NONE)
    ensures NamesNothing(str, i, s)
  {
  }

  /** A quoted command line sets no variables. */
  lemma {:induction false} CommandNamesNothing(str: seq<Byte>, i: nat, qs: seq<Quoted>)
    requires AllQuotable(qs) && i <= |str| && str[i..] == Command(qs)
    ensures NamesNothing(str, i, ENV_NONE)
    decreases |qs|
  {
    hide Command, Text, LiesAt, NamesNothing, Quotable;
    if qs == [] {
      NoCommand();
      NothingLeft(str, i);
    } else {
      CommandBegins(str, i, qs);
      if |qs| > 1 {
        CommandNamesNothing(str, i + |Text(qs[0])| + 1, qs[1..]);
        SpaceNamesNothing(str, i + |Text(qs[0])|);
      } else {
        NothingLeft(str, |str|);
      }
      TextNamesNothing(str, i, qs[0]);
    }
  }

  lemma NothingLeft(str: seq<Byte>, i: nat)
    requires i >= |str|
    ensures NamesNothing(str, i, ENV_NONE)
  {
  }

  lemma SpaceNamesNothing(str: seq<Byte>, i: nat)
    requires i < |str| && str[i] == SPACE && NamesNothing(str, i + 1, ENV_NONE)
    ensures NamesNothing(str, i, ENV_NONE)
  {
  }

  lemma QuoteNamesNothing(str: seq<Byte>, i: nat)
    requires i < |str|
    ensures str[i] == SQUOTE && NamesNothing(str, i + 1, ENV_SQ) ==> NamesNothing(str, i, ENV_NONE)
    ensures str[i] == DQUOTE && NamesNothing(str, i + 1, ENV_DQ) ==> NamesNothing(str, i, ENV_NONE)
    ensures str[i] == BACKSLASH ==> NamesNothing(str, i, ENV_NONE)
  {
  }

  lemma TextNamesNothing(str: seq<Byte>, i: nat, q: Quoted)
    requires Quotable(q) && LiesAt(Text(q), str, i)
    requires i + |Text(q)| == |str| || str[i + |Text(q)|] == SPACE
    requires NamesNothing(str, i + |Text(q)|, ENV_NONE)
    ensures NamesNothing(str, i, ENV_NONE)
  {
    hide Escape, LiesAt, NamesNothing, EscapeInDouble, IsOrdinary;
    var t := Text(q);
    LiesWithin(t, str, i, 0, 1);
    QuoteNamesNothing(str, i);
    match q
    case Single(a) =>
      Enclosed(SQUOTE, a, str, i);
      SingleNamesNothing(str, i + 1, a);
    case Double(a) =>
      Enclosed(DQUOTE, EscapeInDouble(a), str, i);
      NoQuoteToEscape(a);
      DoubleNamesNothing(str, i + 1, EscapeInDouble(a));
    case Escaped(a) =>
      EscapeBegins(a);
    case Plain(a) =>
      LiesNext(a, str, i, 1);
      assert a[0] in a && forall c :: c in a[1..] ==> c in a;
      PlainNamesNothing(str, i + 1, a[1..]);
      OrdinaryNamesNothing(str, i, ENV_NONE);
  }

  lemma Enclosed(c: Byte, a: seq<Byte>, str: seq<Byte>, i: nat)
    requires LiesAt([c] + a + [c], str, i)
    ensures LiesAt(a, str, i + 1) && i + |a| + 1 < |str| && str[i] == c && str[i + |a| + 1] == c
  {
    hide LiesAt;
    LiesInThree([c], a, [c], str, i);
    LiesNext([c], str, i, 0);
    LiesNext([c], str, i + 1 + |a|, 0);
    LiesWithin([c] + a + [c], str, i, |a| + 1, |a| + 2);
  }

  lemma NoCommand()
    ensures Command([]) == []
  {
  }

  lemma EscapeBegins(t: seq<Byte>)
    requires t != []
    ensures |Escape(t)| > 0 && Escape(t)[0] == BACKSLASH
  {
  }

  /** Behind the definitions, or where there are none, stands the command. */
  lemma CommandBehind(str: seq<Byte>, ds: seq<Definition>, qs: seq<Quoted>)
    requires AllDefinable(ds) && AllQuotable(qs) && str == Leading(ds) + Command(qs)
    ensures var p := Search(ENV_START, str, 0);
            && p.envc == 2 * |ds| && p.argstart == (if ds == [] then 0 else |Leading(ds)| - 1)
            && Places(ds, 0) <= p.env && Held(ds) <= p.envz
  {
    hide Search, Leading, Held, Command, NamesNothing;
    var n := |Leading(ds)|;
    assert str[0..n] == Leading(ds) && str[n..] == Command(qs);
    var q := AllDefinitions(ENV_START, str, 0, ds);
    assert [] + Held(ds) == Held(ds) && [] + Places(ds, 0) == Places(ds, 0);
    CommandNamesNothing(str, n, qs);
    NothingMore(q, str, n);
  }

  /** The second pass skips the space in front of the command. */
  lemma ToCommand(str: seq<Byte>, ds: seq<Definition>, qs: seq<Quoted>, argstart: nat) returns (p: Progress)
    requires str == Leading(ds) + Command(qs) && argstart == if ds == [] then 0 else |Leading(ds)| - 1
    ensures Alike(p, NONE, [], [], {}) && Rest(START, str, argstart) == Rest(p, str, |Leading(ds)|)
    ensures str[|Leading(ds)|..] == Command(qs)
  {
    hide Rest, Command, Advanced;
    p := START;
    if ds != [] {
      LeadingEnds(ds);
      p := SkipSpace(str, argstart);
    }
  }

  lemma {:induction false} LeadingEnds(ds: seq<Definition>)
    requires ds != []
    ensures |Leading(ds)| > 0 && Leading(ds)[|Leading(ds)| - 1] == SPACE
    decreases |ds|
  {
    if |ds| > 1 { LeadingEnds(ds[1..]); }
  }

  lemma SkipSpace(str: seq<Byte>, i: nat) returns (p: Progress)
    requires i < |str| && str[i] == SPACE
    ensures Alike(p, NONE, [], [], {}) && Rest(START, str, i) == Rest(p, str, i + 1)
  {
    p := Advanced(START, str, i);
  }

  /** A quoted command line, with definitions in front of it or none. */
  ghost predicate IsCommandLine(str: seq<Byte>, ds: seq<Definition>, qs: seq<Quoted>) {
    qs != [] && AllDefinable(ds) && AllQuotable(qs) && str == Leading(ds) + Command(qs)
  }

  ghost predicate ArgumentsAre(argz: seq<Byte>, argv: seq<nat>, qs: seq<Quoted>) {
    |argv| == |qs| && forall k :: 0 <= k < |qs| ==> StringAt(argz, argv[k]) == qs[k].arg
  }

  ghost predicate VariablesAre(envz: seq<Byte>, env: seq<nat>, ds: seq<Definition>) {
    && |env| == 2 * |ds|
    && forall k :: 0 <= k < |ds| ==>
      StringAt(envz, env[2 * k]) == ds[k].name && StringAt(envz, env[2 * k + 1]) == ds[k].value
  }

  lemma VariablesFound(envz: seq<Byte>, ds: seq<Definition>)
    requires AllDefinable(ds) && Held(ds) <= envz
    ensures VariablesAre(envz, Places(ds, 0), ds)
  {
    hide StringAt, Held, Definable;
    assert [] + Held(ds) == Held(ds);
    forall k | 0 <= k < |ds|
      ensures StringAt(envz, Places(ds, 0)[2 * k]) == ds[k].name
      ensures StringAt(envz, Places(ds, 0)[2 * k + 1]) == ds[k].value
    {
      DefinitionsRead(envz, [], ds, k);
    }
  }

  /** runcmd_cmd2strv.  A quoted command line, with or without variables set in front of it,
      comes apart into exactly the names and values of the variables and the arguments, with
      nothing for a shell to do; whatever the command line, the vector for the arguments is
      big enough. */
  method Cmd2Strv(str: seq<Byte>, argv: array<nat>)
    returns (ret: set<Anomaly>, argz: array<Byte>, argc: nat, envz: seq<Byte>, env: seq<nat>, envc: nat)
    requires NUL !in str && argv.Length >= |str| / 2 + 5
    modifies argv
    ensures fresh(argz) && 2 * argc <= |str| + 1 && argc <= argv.Length && envc <= |env|
    ensures EQUALS !in str ==> envc == 0
    ensures forall ds: seq<Definition>, qs: seq<Quoted> :: IsCommandLine(str, ds, qs) ==>
              ret == {} && ArgumentsAre(argz[..], argv[..argc], qs) && VariablesAre(envz, env[..envc], ds)
  {
    hide Search, Rest, StringAt, Leading, Command, AllDefinable, AllQuotable, VariablesAre;
    var argstart;
    envz, env, envc, argstart := SplitEnvironment(str);
    argz, argc, ret := SplitArguments(str, argstart, argv);
    RestFits(START, str, argstart);
    forall ds: seq<Definition>, qs: seq<Quoted> | IsCommandLine(str, ds, qs)
      ensures ret == {} && ArgumentsAre(argz[..], argv[..argc], qs) && VariablesAre(envz, env[..envc], ds)
    {
      CommandBehind(str, ds, qs);
      VariablesFound(envz, ds);
      assert env[..envc] == Places(ds, 0);
      var p := ToCommand(str, ds, qs, argstart);
      CutExactly(p, str, |Leading(ds)|, qs, argz[..], argv[..argc]);
    }
  }
}
