/**
 `${VAR}` interpolation of raw YAML text (crates/ruscker-config/src/env.rs).

 The code walks the lines with one piece of state, the column of an open `container-env` block.
 The definition it is proved against has none: whether a line is kept verbatim is read off the
 lines before it.
 */
module EnvInterpolation {
  import opened Wrappers

  datatype Error = MissingEnvVar(name: string) | InvalidEnvRef(literal: string)

  /** A variable of the environment; one that is not valid Unicode is present but unusable. */
  datatype EnvValue = Text(text: string) | NotUnicode

  type Env = map<string, EnvValue>

  // ---- Text helpers; columns are counted in UTF-8 bytes ----

  predicate IsWhitespace(c: char) {
    var n := c as int;
    || 0x9 <= n <= 0xd || n == 0x20 || n == 0x85 || n == 0xa0 || n == 0x1680 || 0x2000 <= n <= 0x200a
    || n == 0x2028 || n == 0x2029 || n == 0x202f || n == 0x205f || n == 0x3000
  }

  function Width(c: char): nat {
    var n := c as int;
    if n < 0x80 then 1 else if n < 0x800 then 2 else if n < 0x10000 then 3 else 4
  }

  function Bytes(s: string): nat {
    if s == "" then 0 else Width(s[0]) + Bytes(s[1..])
  }

  function TrimStart(s: string): (r: string)
    ensures Bytes(r) <= Bytes(s)
  {
    if s != "" && IsWhitespace(s[0]) then TrimStart(s[1..]) else s
  }

  function TrimEnd(s: string): string {
    if s != "" && IsWhitespace(s[|s| - 1]) then TrimEnd(s[..|s| - 1]) else s
  }

  function TrimDashes(s: string): (r: string)
    ensures Bytes(r) <= Bytes(s)
  {
    if s != "" && s[0] == '-' then TrimDashes(s[1..]) else s
  }

  function BeforeColon(s: string): string {
    if s == "" || s[0] == ':' then "" else [s[0]] + BeforeColon(s[1..])
  }

  // ---- What a single line is ----

  function Content(line: string): string {
    if line != "" && line[|line| - 1] == '\n' then line[..|line| - 1] else line
  }

  function Trimmed(line: string): string {
    TrimStart(Content(line))
  }

  function Indent(line: string): nat {
    Bytes(Content(line)) - Bytes(Trimmed(line))
  }

  /** Neither blank nor a comment. */
  predicate Significant(line: string) {
    Trimmed(line) != "" && Trimmed(line)[0] != '#'
  }

  function Key(line: string): string {
    TrimEnd(TrimStart(TrimDashes(BeforeColon(Trimmed(line)))))
  }

  predicate OpensBlock(line: string) {
    Significant(line) && Key(line) == "container-env"
  }

  predicate SecretLine(line: string) {
    Significant(line) && Key(line) == "docker-registry-password"
  }

  /** The column of the key itself, past the dash of a list item. */
  function KeyColumn(line: string): nat {
    var trimmed := Trimmed(line);
    Indent(line) + (Bytes(trimmed) - Bytes(TrimStart(TrimDashes(trimmed))))
  }

  // ---- Which lines are kept: the stateless definition ----

  /** Every significant line from `from` up to `to` is deeper than `column`. */
  ghost predicate AllDeeper(lines: seq<string>, from: nat, to: nat, column: nat)
    requires to <= |lines|
  {
    forall m :: from <= m < to && Significant(lines[m]) ==> Indent(lines[m]) > column
  }

  /** Line `j` opened a block that reaches at least to just before line `k`. */
  ghost predicate OpenAt(lines: seq<string>, j: nat, k: nat)
    requires k <= |lines|
  {
    j < k && OpensBlock(lines[j]) && AllDeeper(lines, j + 1, k, KeyColumn(lines[j]))
  }

  ghost predicate Inside(lines: seq<string>, j: nat, k: nat)
    requires k < |lines|
  {
    j < k && OpensBlock(lines[j]) && AllDeeper(lines, j + 1, k + 1, KeyColumn(lines[j]))
  }

  /** Line `k` is content of a `container-env` block that some earlier line opened. */
  ghost predicate InBlock(lines: seq<string>, k: nat)
    requires k < |lines|
  {
    Significant(lines[k]) && exists j: nat :: Inside(lines, j, k)
  }

  ghost predicate Kept(lines: seq<string>, k: nat)
    requires k < |lines|
  {
    !Significant(lines[k]) || InBlock(lines, k) || OpensBlock(lines[k]) || SecretLine(lines[k])
  }

  // ---- Inline comments ----

  datatype Quotes = Outside | Single | Double

  function Quote(q: Quotes, c: char): Quotes {
    if c == '\'' && !q.Double? then (if q.Single? then Outside else Single)
    else if c == '"' && !q.Single? then (if q.Double? then Outside else Double)
    else q
  }

  function QuotesAfter(s: string): Quotes {
    if s == "" then Outside else Quote(QuotesAfter(s[..|s| - 1]), s[|s| - 1])
  }

  /** A `#` outside quotes, at the start or after a blank or tab. */
  predicate CommentAt(line: string, i: nat)
    requires i < |line|
  {
    line[i] == '#' && QuotesAfter(line[..i]).Outside? && (i == 0 || line[i - 1] == ' ' || line[i - 1] == '\t')
  }

  function CodeLength(line: string, from: nat): (n: nat)
    requires from <= |line|
    ensures from <= n <= |line|
    ensures forall i :: from <= i < n ==> !CommentAt(line, i)
    ensures n < |line| ==> CommentAt(line, n)
    decreases |line| - from
  {
    if from == |line| || CommentAt(line, from) then from else CodeLength(line, from + 1)
  }

  /** The comment starts at the first `#` that is outside quotations and first on the line or after a blank. */
  lemma CommentIsTheFirst(line: string, i: nat)
    requires i < |line| && line[i] == '#' && QuotesAfter(line[..i]).Outside?
    ensures var n := CodeLength(line, 0);
      && (i < n ==> i > 0 && line[i - 1] != ' ' && line[i - 1] != '\t')
      && (i == 0 || line[i - 1] == ' ' || line[i - 1] == '\t' ==> n <= i)
      && (n < |line| ==> line[n] == '#' && QuotesAfter(line[..n]).Outside?
                         && (n == 0 || line[n - 1] == ' ' || line[n - 1] == '\t'))
  {
    assert i < CodeLength(line, 0) ==> !CommentAt(line, i);
  }

  method SplitInlineComment(line: string) returns (code: string, comment: string)
    ensures code == line[..CodeLength(line, 0)] && comment == line[CodeLength(line, 0)..]
    ensures code + comment == line
  {
    var inSingle, inDouble, prevWs := false, false, true;
    var i := 0;
    while i < |line|
      invariant 0 <= i <= |line| && CodeLength(line, 0) == CodeLength(line, i)
      invariant QuotesAfter(line[..i]) == if inSingle then Single else if inDouble then Double else Outside
      invariant !(inSingle && inDouble)
      invariant prevWs <==> i == 0 || line[i - 1] == ' ' || line[i - 1] == '\t'
    {
      var b := line[i];
      assert line[..i + 1][..i] == line[..i];
      if b == '\'' && !inDouble {
        inSingle := !inSingle;
      } else if b == '"' && !inSingle {
        inDouble := !inDouble;
      } else if b == '#' && !inSingle && !inDouble && prevWs {
        return line[..i], line[i..];
      }
      prevWs := b == ' ' || b == '\t';
      i := i + 1;
    }
    return line, "";
  }

  // ---- Tokens ----

  predicate NameStart(c: char) {
    'A' <= c <= 'Z' || 'a' <= c <= 'z' || c == '_'
  }

  predicate NameChar(c: char) {
    NameStart(c) || '0' <= c <= '9'
  }

  /** `source` is the text of the token: `${name}` or `${name:-fallback}`. */
  datatype Token = Token(name: string, fallback: Option<string>, source: string)
  {
    predicate Spelled() {
      && name != "" && !('0' <= name[0] <= '9')
      && (forall k :: 0 <= k < |name| ==>
            'A' <= name[k] <= 'Z' || 'a' <= name[k] <= 'z' || name[k] == '_' || '0' <= name[k] <= '9')
      && |source| == |name| + 3 + (if fallback.Some? then |fallback.value| + 2 else 0)
      && source[0] == '$' && source[1] == '{' && Reads(source, 2, name) && source[|source| - 1] == '}'
      && (fallback.Some? ==>
            && source[2 + |name|] == ':' && source[3 + |name|] == '-' && Reads(source, 4 + |name|, fallback.value)
            && forall k :: 0 <= k < |fallback.value| ==> fallback.value[k] != '}')
    }
  }

  /** `text` stands in `s` at position `i`. */
  predicate Reads(s: string, i: nat, text: string) {
    i + |text| <= |s| && forall k :: 0 <= k < |text| ==> s[i + k] == text[k]
  }

  function NameEnd(s: string, i: nat): (e: nat)
    requires i <= |s|
    ensures i <= e <= |s| && (forall k :: i <= k < e ==> NameChar(s[k])) && (e < |s| ==> !NameChar(s[e]))
    decreases |s| - i
  {
    if i < |s| && NameChar(s[i]) then NameEnd(s, i + 1) else i
  }

  function BraceFrom(s: string, i: nat): (e: nat)
    requires i <= |s|
    ensures i <= e <= |s| && (forall k :: i <= k < e ==> s[k] != '}') && (e < |s| ==> s[e] == '}')
    decreases |s| - i
  {
    if i < |s| && s[i] != '}' then BraceFrom(s, i + 1) else i
  }

  /** The token the pattern matches at position `i`, if it matches there. */
  function TokenAt(s: string, i: nat): (m: Option<Token>)
    requires i <= |s|
    ensures m.Some? ==> m.value.source != "" && Reads(s, i, m.value.source)
  {
    if i + 2 < |s| && s[i] == '$' && s[i + 1] == '{' && NameStart(s[i + 2]) then
      var e := NameEnd(s, i + 2);
      if e < |s| && s[e] == '}' then Some(Token(s[i + 2..e], None, s[i..e + 1]))
      else if e + 1 < |s| && s[e] == ':' && s[e + 1] == '-' then
        var b := BraceFrom(s, e + 2);
        if b < |s| then Some(Token(s[i + 2..e], Some(s[e + 2..b]), s[i..b + 1])) else None
      else None
    else None
  }

  /** A match is found exactly where a well-spelled token starts. */
  lemma TokenAtIff(s: string, i: nat, t: Token)
    requires i <= |s|
    ensures TokenAt(s, i) == Some(t) <==> t.Spelled() && Reads(s, i, t.source)
  {
    if TokenAt(s, i) == Some(t) {
      TokenSound(s, i);
    }
    if t.Spelled() && Reads(s, i, t.source) {
      TokenComplete(s, i, t);
    }
  }

  lemma TokenSound(s: string, i: nat)
    requires i <= |s| && TokenAt(s, i).Some?
    ensures TokenAt(s, i).value.Spelled()
  {
    var e := NameEnd(s, i + 2);
    hide NameEnd, BraceFrom;
  }

  lemma ReadsSlice(s: string, i: nat, text: string)
    requires Reads(s, i, text)
    ensures s[i..i + |text|] == text
  {
  }

  lemma NameComplete(s: string, i: nat, t: Token)
    requires i <= |s| && t.Spelled() && Reads(s, i, t.source)
    ensures var e := i + 2 + |t.name|;
      NameStart(s[i + 2]) && NameEnd(s, i + 2) == e && s[i + 2..e] == t.name
  {
    var e := i + 2 + |t.name|;
    assert s[e] == t.source[e - i];
    forall k | 0 <= k < |t.name|
      ensures s[i + 2 + k] == t.name[k]
    {
      assert s[i + (2 + k)] == t.source[2 + k];
    }
    ReadsSlice(s, i + 2, t.name);
    forall k | i + 2 <= k < e
      ensures NameChar(s[k])
    {
      assert s[i + 2 + (k - i - 2)] == t.name[k - i - 2];
    }
    NameEndIs(s, i + 2, e);
  }

  lemma TokenComplete(s: string, i: nat, t: Token)
    requires i <= |s| && t.Spelled() && Reads(s, i, t.source)
    ensures TokenAt(s, i) == Some(t)
  {
    ReadsSlice(s, i, t.source);
    NameComplete(s, i, t);
    TokenOpens(s, i, t);
    var e, n := i + 2 + |t.name|, |t.source|;
    if t.fallback.Some? {
      FallbackComplete(s, i, t);
      hide *;
      FallbackFound(s, i, t, e, i + n - 1);
    } else {
      hide *;
      PlainFound(s, i, t, e);
    }
  }

  lemma PlainFound(s: string, i: nat, t: Token, e: nat)
    requires i + 2 < e < |s| && s[i] == '$' && s[i + 1] == '{' && NameStart(s[i + 2]) && NameEnd(s, i + 2) == e
    requires s[e] == '}' && t == Token(s[i + 2..e], None, s[i..e + 1])
    ensures TokenAt(s, i) == Some(t)
  {
    hide NameEnd, NameStart;
  }

  lemma FallbackFound(s: string, i: nat, t: Token, e: nat, b: nat)
    requires i + 2 < e && e + 1 < b < |s| && s[i] == '$' && s[i + 1] == '{'
    requires NameStart(s[i + 2]) && NameEnd(s, i + 2) == e && BraceFrom(s, e + 2) == b
    requires s[e] == ':' && s[e + 1] == '-' && t == Token(s[i + 2..e], Some(s[e + 2..b]), s[i..b + 1])
    ensures TokenAt(s, i) == Some(t)
  {
    hide NameEnd, BraceFrom, NameStart;
  }

  lemma TokenOpens(s: string, i: nat, t: Token)
    requires i <= |s| && t.Spelled() && Reads(s, i, t.source)
    ensures i + 2 + |t.name| < i + |t.source| <= |s| && s[i] == '$' && s[i + 1] == '{'
    ensures t.fallback.None? ==> i + |t.source| == i + 3 + |t.name| && s[i + 2 + |t.name|] == '}'
  {
    assert s[i + 0] == t.source[0] && s[i + 1] == t.source[1] && s[i + (|t.source| - 1)] == t.source[|t.source| - 1];
  }

  lemma FallbackComplete(s: string, i: nat, t: Token)
    requires i <= |s| && t.Spelled() && Reads(s, i, t.source) && t.fallback.Some?
    ensures var e, b := i + 2 + |t.name|, i + |t.source| - 1;
      s[e] == ':' && s[e + 1] == '-' && BraceFrom(s, e + 2) == b && s[e + 2..b] == t.fallback.value
  {
    var e, b, f := i + 2 + |t.name|, i + |t.source| - 1, t.fallback.value;
    assert s[e] == t.source[e - i] && s[i + (e + 1 - i)] == t.source[e + 1 - i] && s[i + (b - i)] == t.source[b - i];
    forall k | 0 <= k < |f|
      ensures s[e + 2 + k] == f[k]
    {
      assert s[i + (4 + |t.name| + k)] == t.source[4 + |t.name| + k];
    }
    ReadsSlice(s, e + 2, f);
    forall k | e + 2 <= k < b
      ensures s[k] != '}'
    {
      assert s[e + 2 + (k - e - 2)] == f[k - e - 2];
    }
    BraceFromIs(s, e + 2, b);
  }

  lemma {:induction false} NameEndIs(s: string, i: nat, e: nat)
    requires i <= e < |s| && (forall k :: i <= k < e ==> NameChar(s[k])) && !NameChar(s[e])
    ensures NameEnd(s, i) == e
    decreases e - i
  {
    if i < e {
      NameEndIs(s, i + 1, e);
    }
  }

  lemma {:induction false} BraceFromIs(s: string, i: nat, e: nat)
    requires i <= e < |s| && (forall k :: i <= k < e ==> s[k] != '}') && s[e] == '}'
    ensures BraceFrom(s, i) == e
    decreases e - i
  {
    if i < e {
      BraceFromIs(s, i + 1, e);
    }
  }

  // ---- Rendering one line ----

  datatype Segment = Literal(c: char) | Ref(token: Token)

  /** The line as literal characters and tokens, scanned left to right without overlap. */
  function Segments(s: string, i: nat): seq<Segment>
    requires i <= |s|
    decreases |s| - i
  {
    if i == |s| then []
    else match TokenAt(s, i)
      case None => [Literal(s[i])] + Segments(s, i + 1)
      case Some(t) =>
        [Ref(t)] + Segments(s, i + |t.source|)
  }

  function SourceOf(segs: seq<Segment>): string {
    if segs == [] then ""
    else (if segs[0].Literal? then [segs[0].c] else segs[0].token.source) + SourceOf(segs[1..])
  }

  lemma SegmentsEnd(s: string)
    ensures Segments(s, |s|) == []
  {
  }

  lemma SourceOfNone()
    ensures SourceOf([]) == ""
  {
  }

  lemma SegmentsAtCharacter(s: string, i: nat)
    requires i < |s| && TokenAt(s, i) == None
    ensures Segments(s, i) == [Literal(s[i])] + Segments(s, i + 1)
  {
    hide TokenAt;
  }

  lemma SegmentsAtToken(s: string, i: nat, t: Token)
    requires i < |s| && TokenAt(s, i) == Some(t)
    ensures Segments(s, i) == [Ref(t)] + Segments(s, i + |t.source|)
  {
    hide TokenAt;
  }

  lemma SourceOfCons(g: Segment, segs: seq<Segment>)
    ensures SourceOf([g] + segs) == (if g.Literal? then [g.c] else g.token.source) + SourceOf(segs)
  {
    assert ([g] + segs)[1..] == segs;
  }

  /** Nothing is lost by the split: what is not a token is in the line as it was. */
  lemma {:induction false} SegmentsCoverTheLine(s: string, i: nat)
    requires i <= |s|
    ensures SourceOf(Segments(s, i)) == s[i..]
    decreases |s| - i
  {
    hide TokenAt, Segments, SourceOf;
    if i < |s| {
      match TokenAt(s, i)
      case None =>
        SegmentsCoverTheLine(s, i + 1);
        SegmentsAtCharacter(s, i);
        SourceOfCons(Literal(s[i]), Segments(s, i + 1));
        assert [s[i]] + s[i + 1..] == s[i..];
      case Some(t) =>
        SegmentsCoverTheLine(s, i + |t.source|);
        SegmentsAtToken(s, i, t);
        SourceOfCons(Ref(t), Segments(s, i + |t.source|));
        ReadsSlice(s, i, t.source);
        hide Reads;
        assert t.source + s[i + |t.source|..] == s[i..];
    } else {
      assert Segments(s, i) == [] && s[i..] == "" by { SegmentsEnd(s); }
      assert SourceOf([]) == "" by { SourceOfNone(); }
    }
  }

  predicate HasNestedRef(s: string) {
    exists i :: 0 <= i < |s| - 1 && s[i] == '$' && s[i + 1] == '{'
  }

  const NESTED := "} \U{2014} a nested reference in a `:-` default is not supported"

  /** The default applies only to an absent variable; a nested default is refused either way. */
  function Value(t: Token, env: Env): Result<string, Error> {
    if t.fallback.Some? && HasNestedRef(t.fallback.value) then Failure(InvalidEnvRef(t.source + NESTED))
    else if t.name in env then
      if env[t.name].Text? then Success(env[t.name].text) else Failure(InvalidEnvRef(t.name))
    else if t.fallback.Some? then Success(t.fallback.value)
    else Failure(MissingEnvVar(t.name))
  }

  function Prepend(p: string, r: Result<string, Error>): Result<string, Error> {
    if r.Success? then Success(p + r.value) else r
  }

  /** Tokens replaced by their values, everything else as it was; the first failing token decides the error. */
  function Render(segs: seq<Segment>, env: Env): Result<string, Error> {
    if segs == [] then Success("")
    else match segs[0]
      case Literal(c) => Prepend([c], Render(segs[1..], env))
      case Ref(t) =>
        var v := Value(t, env);
        if v.Failure? then v else Prepend(v.value, Render(segs[1..], env))
  }

  /** `text` followed by what the line renders to from `i` on. */
  function Rest(text: string, line: string, i: nat, env: Env): Result<string, Error>
    requires i <= |line|
  {
    Prepend(text, Render(Segments(line, i), env))
  }

  lemma RestStep(text: string, line: string, i: nat, env: Env)
    requires i < |line|
    ensures var m := TokenAt(line, i);
      && (m.None? ==> Rest(text, line, i, env) == Rest(text + [line[i]], line, i + 1, env))
      && (m.Some? && Value(m.value, env).Failure? ==> Rest(text, line, i, env) == Value(m.value, env))
      && (m.Some? && Value(m.value, env).Success? ==>
            Rest(text, line, i, env) == Rest(text + Value(m.value, env).value, line, i + |m.value.source|, env))
  {
    hide TokenAt, Value;
    var m := TokenAt(line, i);
    if m.None? {
      PrependTwice(text, [line[i]], Render(Segments(line, i + 1), env));
    } else if Value(m.value, env).Success? {
      PrependTwice(text, Value(m.value, env).value, Render(Segments(line, i + |m.value.source|), env));
    }
  }

  lemma RestEnds(text: string, line: string, env: Env)
    ensures Rest(text, line, |line|, env) == Success(text)
    ensures Rest("", line, 0, env) == Render(Segments(line, 0), env)
  {
    assert text + "" == text;
    var r := Render(Segments(line, 0), env);
    assert r.Success? ==> "" + r.value == r.value;
  }

  method InterpolateLine(line: string, env: Env) returns (r: Result<string, Error>)
    ensures r == Render(Segments(line, 0), env)
  {
    hide Rest, TokenAt, Segments, Render;
    var result, lastEnd, pos := "", 0, 0;
    RestEnds("", line, env);
    assert "" + line[0..0] == "";
    while pos < |line|
      invariant 0 <= lastEnd <= pos <= |line|
      invariant Render(Segments(line, 0), env) == Rest(result + line[lastEnd..pos], line, pos, env)
    {
      RestStep(result + line[lastEnd..pos], line, pos, env);
      var m := TokenAt(line, pos);
      if m.None? {
        assert result + line[lastEnd..pos] + [line[pos]] == result + line[lastEnd..pos + 1];
        pos := pos + 1;
        continue;
      }
      var t := m.value;
      if t.fallback.Some? && HasNestedRef(t.fallback.value) {
        return Failure(InvalidEnvRef(t.source + NESTED));
      }
      result := result + line[lastEnd..pos];
      var value;
      if t.name in env {
        match env[t.name] {
          case Text(v) => value := v;
          case NotUnicode => return Failure(InvalidEnvRef(t.name));
        }
      } else {
        match t.fallback {
          case Some(d) => value := d;
          case None => return Failure(MissingEnvVar(t.name));
        }
      }
      assert Value(t, env) == Success(value);
      result := result + value;
      pos := pos + |t.source|;
      lastEnd := pos;
      assert result + line[lastEnd..pos] == result;
    }
    assert line[lastEnd..] == line[lastEnd..pos];
    RestEnds(result + line[lastEnd..], line, env);
    return Success(result + line[lastEnd..]);
  }

  lemma PrependTwice(a: string, b: string, r: Result<string, Error>)
    ensures Prepend(a, Prepend(b, r)) == Prepend(a + b, r)
  {
    if r.Success? {
      assert a + (b + r.value) == a + b + r.value;
    }
  }

  // ---- What stands in place of a reference ----

  /** Segments render one after the other, up to the first that fails. */
  lemma {:induction false} RenderConcat(a: seq<Segment>, b: seq<Segment>, env: Env)
    ensures Render(a + b, env) ==
            if Render(a, env).Failure? then Render(a, env) else Prepend(Render(a, env).value, Render(b, env))
  {
    hide Value;
    if a == [] {
      assert a + b == b;
      var r := Render(b, env);
      assert r.Success? ==> "" + r.value == r.value;
    } else {
      RenderConcat(a[1..], b, env);
      assert (a + b)[1..] == a[1..] + b;
      var rest := Render(a[1..], env);
      if rest.Success? {
        var head := if a[0].Literal? then [a[0].c] else if Value(a[0].token, env).Success? then
          Value(a[0].token, env).value else "";
        PrependTwice(head, rest.value, Render(b, env));
      }
    }
  }

  lemma RenderCharacter(c: char, env: Env)
    ensures Render([Literal(c)], env) == Success([c])
  {
    assert [Literal(c)][1..] == [];
    assert [c] + "" == [c];
  }

  /**
   A set variable is what a reference renders to, whether it has a default or not; the default is for an
   absent one; an absent one without default, and one that is not Unicode, fail. A default with a
   reference in it is refused whatever is set.
   */
  lemma ReferenceRendersTo(t: Token, env: Env, v: string)
    ensures var nested := t.fallback.Some? && exists i ::
              0 <= i < |t.fallback.value| - 1 && t.fallback.value[i] == '$' && t.fallback.value[i + 1] == '{';
      var r := Render([Ref(t)], env);
      if nested
      then r == Failure(InvalidEnvRef(t.source + "} \U{2014} a nested reference in a `:-` default is not supported"))
      else && (r == Success(v) <==>
                 (t.name in env && env[t.name] == Text(v)) || (t.name !in env && t.fallback == Some(v)))
           && (r == Failure(MissingEnvVar(t.name)) <==> t.name !in env && t.fallback.None?)
           && (r == Failure(InvalidEnvRef(t.name)) <==> t.name in env && env[t.name] == NotUnicode)
  {
    assert [Ref(t)][1..] == [];
    if Value(t, env).Success? {
      assert Value(t, env).value + "" == Value(t, env).value;
    }
  }

  function Characters(s: string): seq<Segment> {
    if s == "" then [] else [Literal(s[0])] + Characters(s[1..])
  }

  lemma {:induction false} RenderCharacters(s: string, env: Env)
    ensures Render(Characters(s), env) == Success(s)
  {
    if s != "" {
      RenderCharacters(s[1..], env);
      assert Characters(s)[1..] == Characters(s[1..]);
      assert [s[0]] + s[1..] == s;
    }
  }

  /** Where no token starts, the line is split into characters. */
  lemma {:induction false} SegmentsBeforeToken(s: string, i: nat, n: nat)
    requires i <= n <= |s| && forall k :: i <= k < n ==> TokenAt(s, k).None?
    ensures Segments(s, i) == Characters(s[i..n]) + Segments(s, n)
    decreases n - i
  {
    hide TokenAt;
    if i < n {
      SegmentsBeforeToken(s, i + 1, n);
      assert s[i..n][1..] == s[i + 1..n] && s[i..n][0] == s[i];
      var c, more, after := [Literal(s[i])], Characters(s[i + 1..n]), Segments(s, n);
      assert Characters(s[i..n]) == c + more && Segments(s, i) == c + Segments(s, i + 1);
      hide Characters, Segments;
      assert c + (more + after) == c + more + after;
    }
  }

  lemma TokenAtSuffix(s: string, i: nat, j: nat)
    requires i <= j <= |s|
    ensures TokenAt(s, j) == TokenAt(s[i..], j - i)
  {
    hide TokenAt;
    var a, b := TokenAt(s, j), TokenAt(s[i..], j - i);
    if a.Some? {
      TokenAtIff(s, j, a.value);
      assert Reads(s[i..], j - i, a.value.source);
      TokenAtIff(s[i..], j - i, a.value);
    } else if b.Some? {
      TokenAtIff(s[i..], j - i, b.value);
      assert Reads(s, j, b.value.source);
      TokenAtIff(s, j, b.value);
    }
  }

  /** What follows a position is split without regard to what stands before it. */
  lemma {:induction false} SegmentsOfSuffix(s: string, i: nat, j: nat)
    requires i <= j <= |s|
    ensures Segments(s, j) == Segments(s[i..], j - i)
    decreases |s| - j
  {
    hide TokenAt;
    if j < |s| {
      TokenAtSuffix(s, i, j);
      var m := TokenAt(s, j);
      SegmentsOfSuffix(s, i, if m.None? then j + 1 else j + |m.value.source|);
    }
  }

  /**
   The first reference of a line, end to end: what stands before it is kept, the reference gives way to the
   variable or, failing that, its default, and the rest of the line is interpolated on its own.
   */
  lemma FirstReferenceIsReplaced(pre: string, t: Token, post: string, env: Env)
    requires t.Spelled() && (t.fallback.Some? ==> !HasNestedRef(t.fallback.value))
    requires forall k :: 0 <= k < |pre| ==> TokenAt(pre + t.source + post, k).None?
    ensures var r, rest := Render(Segments(pre + t.source + post, 0), env), Render(Segments(post, 0), env);
      && (t.name in env && env[t.name].Text? ==> r == Prepend(pre + env[t.name].text, rest))
      && (t.name in env && env[t.name].NotUnicode? ==> r == Failure(InvalidEnvRef(t.name)))
      && (t.name !in env && t.fallback.Some? ==> r == Prepend(pre + t.fallback.value, rest))
      && (t.name !in env && t.fallback.None? ==> r == Failure(MissingEnvVar(t.name)))
  {
    var line, n := pre + t.source + post, |pre|;
    var m := n + |t.source|;
    SegmentsBeforeToken(line, 0, n);
    assert line[0..n] == pre && line[m..] == post;
    assert Reads(line, n, t.source);
    TokenAtIff(line, n, t);
    SegmentsOfSuffix(line, m, m);
    hide TokenAt, Segments;
    assert Segments(line, n) == [Ref(t)] + Segments(post, 0) by { SegmentsAtToken(line, n, t); }
    RenderConcat(Characters(pre), [Ref(t)] + Segments(post, 0), env);
    RenderCharacters(pre, env);
    RenderConcat([Ref(t)], Segments(post, 0), env);
    var v := if t.name in env && env[t.name].Text? then env[t.name].text
             else if t.fallback.Some? then t.fallback.value else "";
    ReferenceRendersTo(t, env, v);
    PrependTwice(pre, v, Render(Segments(post, 0), env));
    hide Render, Characters;
  }

  // ---- What a line looks like ----

  predicate Blank(s: string) {
    forall k :: 0 <= k < |s| ==> s[k] == ' ' || s[k] == '\t'
  }

  predicate Dashes(s: string) {
    forall k :: 0 <= k < |s| ==> s[k] == '-'
  }

  lemma {:induction false} TrimBlanks(blank: string, text: string)
    requires Blank(blank) && (text != "" ==> !IsWhitespace(text[0]))
    ensures TrimStart(blank + text) == text
  {
    if blank == "" {
      assert blank + text == text;
    } else {
      TrimBlanks(blank[1..], text);
      assert (blank + text)[1..] == blank[1..] + text;
    }
  }

  /** Blanks before the colon are no part of the key either. */
  lemma {:induction false} TrimEndBlanks(text: string, blank: string)
    requires Blank(blank) && (text != "" ==> !IsWhitespace(text[|text| - 1]))
    ensures TrimEnd(text + blank) == text
  {
    if blank == "" {
      assert text + blank == text;
    } else {
      TrimEndBlanks(text, blank[..|blank| - 1]);
      assert (text + blank)[..|text + blank| - 1] == text + blank[..|blank| - 1];
    }
  }

  lemma {:induction false} TrimAllDashes(dashes: string, text: string)
    requires Dashes(dashes) && (text != "" ==> text[0] != '-')
    ensures TrimDashes(dashes + text) == text
  {
    if dashes == "" {
      assert dashes + text == text;
    } else {
      TrimAllDashes(dashes[1..], text);
      assert (dashes + text)[1..] == dashes[1..] + text;
    }
  }

  lemma {:induction false} BytesAdd(a: string, b: string)
    ensures Bytes(a + b) == Bytes(a) + Bytes(b)
  {
    if a == "" {
      assert a + b == b;
    } else {
      BytesAdd(a[1..], b);
      assert (a + b)[1..] == a[1..] + b;
    }
  }

  lemma {:induction false} BytesOfAscii(s: string)
    requires forall k :: 0 <= k < |s| ==> s[k] as int < 0x80
    ensures Bytes(s) == |s|
  {
    if s != "" {
      BytesOfAscii(s[1..]);
    }
  }

  lemma {:induction false} ColonEndsKey(key: string, rest: string)
    requires forall k :: 0 <= k < |key| ==> key[k] != ':'
    ensures BeforeColon(key + [':'] + rest) == key
  {
    var line := key + [':'] + rest;
    if key != "" {
      ColonEndsKey(key[1..], rest);
      assert line[1..] == key[1..] + [':'] + rest;
      assert [key[0]] + key[1..] == key;
    }
  }

  /**
   `blank`, perhaps the dashes of a list item and what separates them from the key, then a key and its
   colon: the indent is the first blanks, the key's column is everything before it (a dash item's own
   column is not), and the key is read without either.
   */
  lemma LineShape(blank: string, dashes: string, gap: string, key: string, rest: string, end: string)
    requires Blank(blank) && Dashes(dashes) && Blank(gap) && (dashes == "" ==> gap == "")
    requires key != "" && key[0] !in {'-', '#'} && !IsWhitespace(key[0]) && !IsWhitespace(key[|key| - 1])
    requires (forall k :: 0 <= k < |key| ==> key[k] != ':') && end in {"", "\n"}
    requires rest != "" ==> rest[|rest| - 1] != '\n'
    ensures var line := blank + (dashes + (gap + (key + [':'] + rest))) + end;
      && Significant(line) && Key(line) == key
      && Indent(line) == |blank| && KeyColumn(line) == |blank| + |dashes| + |gap|
  {
    var item := dashes + (gap + (key + [':'] + rest));
    var line := blank + item + end;
    ItemShape(dashes, gap, key, rest);
    ContentOf(blank + item, end);
    TrimBlanks(blank, item);
    assert Content(line) == blank + item && Trimmed(line) == item;
    BytesAdd(blank, item);
    BytesOfAscii(blank);
    KeyOfItem(dashes, gap, key, rest);
    hide Content, TrimStart, TrimEnd, TrimDashes, BeforeColon, Bytes;
  }

  lemma ContentOf(text: string, end: string)
    requires text != "" && text[|text| - 1] != '\n' && end in {"", "\n"}
    ensures Content(text + end) == text
  {
    if end == "" {
      assert text + end == text;
    } else {
      assert (text + end)[..|text|] == text;
    }
  }

  lemma ItemShape(dashes: string, gap: string, key: string, rest: string)
    requires Dashes(dashes) && Blank(gap) && (dashes == "" ==> gap == "")
    requires key != "" && key[0] != '#' && !IsWhitespace(key[0]) && (rest != "" ==> rest[|rest| - 1] != '\n')
    ensures var item := dashes + (gap + (key + [':'] + rest));
      item != "" && item[|item| - 1] != '\n' && !IsWhitespace(item[0]) && item[0] != '#'
  {
    var tail := key + [':'] + rest;
    var item := dashes + (gap + tail);
    assert item[|item| - 1] == tail[|tail| - 1];
    if dashes == "" {
      assert item == tail && tail[0] == key[0];
    } else {
      assert item[0] == dashes[0];
    }
  }

  /** The key of a line without its indent, and how far into it the key stands. */
  lemma KeyOfItem(dashes: string, gap: string, key: string, rest: string)
    requires Dashes(dashes) && Blank(gap) && (dashes == "" ==> gap == "")
    requires key != "" && key[0] != '-' && !IsWhitespace(key[0]) && !IsWhitespace(key[|key| - 1])
    requires forall k :: 0 <= k < |key| ==> key[k] != ':'
    ensures var item := dashes + (gap + (key + [':'] + rest));
      && TrimEnd(TrimStart(TrimDashes(BeforeColon(item)))) == key
      && Bytes(item) - Bytes(TrimStart(TrimDashes(item))) == |dashes| + |gap|
  {
    var tail := key + [':'] + rest;
    var before := dashes + (gap + key);
    assert dashes + (gap + tail) == before + [':'] + rest;
    forall k | 0 <= k < |before|
      ensures before[k] != ':'
    {
    }
    ColonEndsKey(before, rest);
    KeyAlone(dashes, gap, key);
    assert tail[0] == key[0];
    DashesAndGap(dashes, gap, tail);
    hide TrimStart, TrimEnd, TrimDashes, BeforeColon, Bytes;
  }

  lemma KeyAlone(dashes: string, gap: string, key: string)
    requires Dashes(dashes) && Blank(gap)
    requires key != "" && key[0] != '-' && !IsWhitespace(key[0]) && !IsWhitespace(key[|key| - 1])
    ensures TrimEnd(TrimStart(TrimDashes(dashes + (gap + key)))) == key
  {
    assert (gap + key)[0] == if gap == "" then key[0] else gap[0];
    TrimAllDashes(dashes, gap + key);
    TrimBlanks(gap, key);
    hide TrimStart, TrimDashes;
  }

  lemma DashesAndGap(dashes: string, gap: string, tail: string)
    requires Dashes(dashes) && Blank(gap) && tail != "" && tail[0] != '-' && !IsWhitespace(tail[0])
    ensures var item := dashes + (gap + tail);
      Bytes(item) - Bytes(TrimStart(TrimDashes(item))) == |dashes| + |gap|
  {
    assert (gap + tail)[0] == if gap == "" then tail[0] else gap[0];
    TrimAllDashes(dashes, gap + tail);
    TrimBlanks(gap, tail);
    BytesAdd(dashes, gap + tail);
    BytesAdd(gap, tail);
    BytesOfAscii(dashes);
    BytesOfAscii(gap);
    hide TrimStart, TrimDashes, Bytes;
  }

  lemma BlockOpener(blank: string, dashes: string, gap: string)
    requires Blank(blank) && Dashes(dashes) && Blank(gap) && (dashes == "" ==> gap == "")
    ensures var line := blank + (dashes + (gap + ("container-env" + [':'] + ""))) + "\n";
      OpensBlock(line) && KeyColumn(line) == |blank| + |dashes| + |gap|
  {
    hide Significant, Key, Indent, KeyColumn, Blank, Dashes;
    var key := "container-env";
    assert key[0] == 'c' && key[|key| - 1] == 'v' && !IsWhitespace('c') && !IsWhitespace('v');
    LineShape(blank, dashes, gap, key, "", "\n");
  }

  /** A list item that begins with `container-env` keeps none of its sibling keys: they stand at the key's column. */
  lemma SiblingsAreInterpolated(lines: seq<string>, j: nat, k: nat, blank: string, dashes: string, gap: string)
    requires j < k < |lines| && Blank(blank) && Dashes(dashes) && Blank(gap) && (dashes == "" ==> gap == "")
    requires lines[j] == blank + (dashes + (gap + ("container-env" + [':'] + ""))) + "\n"
    requires Significant(lines[k])
    ensures Indent(lines[k]) <= |blank| + |dashes| + |gap| ==> !Inside(lines, j, k)
    ensures k == j + 1 && Indent(lines[k]) > |blank| + |dashes| + |gap| ==> Inside(lines, j, k)
  {
    hide Significant, OpensBlock, Indent, KeyColumn, Blank, Dashes;
    BlockOpener(blank, dashes, gap);
    assert OpensBlock(lines[j]) && KeyColumn(lines[j]) == |blank| + |dashes| + |gap|;
  }

  /** A quotation, whatever the other kind of quote does in it, runs to the next quote of its own kind. */
  lemma {:induction false} QuotationRuns(pre: string, q: char, inner: string)
    requires QuotesAfter(pre).Outside? && q in {'\'', '"'} && forall k :: 0 <= k < |inner| ==> inner[k] != q
    ensures QuotesAfter(pre + [q] + inner) == if q == '"' then Double else Single
    ensures QuotesAfter(pre + [q] + inner + [q]).Outside?
  {
    var open := pre + [q] + inner;
    if inner == "" {
      assert open[..|open| - 1] == pre;
    } else {
      QuotationRuns(pre, q, inner[..|inner| - 1]);
      assert open[..|open| - 1] == pre + [q] + inner[..|inner| - 1];
    }
    assert (open + [q])[..|open|] == open;
  }

  lemma {:induction false} NoQuotesNoQuotation(pre: string, plain: string)
    requires QuotesAfter(pre).Outside? && forall k :: 0 <= k < |plain| ==> plain[k] !in {'\'', '"'}
    ensures QuotesAfter(pre + plain).Outside?
  {
    if plain == "" {
      assert pre + plain == pre;
    } else {
      NoQuotesNoQuotation(pre, plain[..|plain| - 1]);
      assert (pre + plain)[..|pre + plain| - 1] == pre + plain[..|plain| - 1];
    }
  }

  // ---- The whole text ----

  /** The lines, each with its newline; the last may lack one. */
  function Lines(s: string): seq<string> {
    if s == "" then []
    else
      var n := LineEnd(s, 0);
      [s[..n]] + Lines(s[n..])
  }

  function LineEnd(s: string, i: nat): (n: nat)
    requires i < |s|
    ensures i < n <= |s| && (forall k :: i <= k < n - 1 ==> s[k] != '\n') && (n < |s| ==> s[n - 1] == '\n')
    decreases |s| - i
  {
    if s[i] == '\n' || i + 1 == |s| then i + 1 else LineEnd(s, i + 1)
  }

  function Join(lines: seq<string>): string {
    if lines == [] then "" else lines[0] + Join(lines[1..])
  }

  lemma {:induction false} LinesJoin(s: string)
    ensures Join(Lines(s)) == s
  {
    if s != "" {
      LinesJoin(s[LineEnd(s, 0)..]);
    }
  }

  predicate IsLine(line: string, last: bool) {
    && line != "" && (forall k :: 0 <= k < |line| - 1 ==> line[k] != '\n')
    && (!last ==> line[|line| - 1] == '\n')
  }

  /** The text is cut after each newline and nowhere else. */
  lemma {:induction false} LinesAreCut(s: string, m: nat)
    requires m < |Lines(s)|
    ensures IsLine(Lines(s)[m], m == |Lines(s)| - 1)
  {
    var n := LineEnd(s, 0);
    if m > 0 {
      LinesAreCut(s[n..], m - 1);
    } else if n < |s| {
      assert s[..n][n - 1] == s[n - 1];
    }
  }

  function Code(line: string): string {
    line[..CodeLength(line, 0)]
  }

  function Comment(line: string): string {
    line[CodeLength(line, 0)..]
  }

  function Append(r: Result<string, Error>, tail: string): Result<string, Error> {
    if r.Success? then Success(r.value + tail) else r
  }

  /** What line `k` becomes: kept, or its code rendered and its comment kept. */
  ghost function LineOut(lines: seq<string>, k: nat, env: Env): Result<string, Error>
    requires k < |lines|
  {
    if Kept(lines, k) then Success(lines[k])
    else Append(Render(Segments(Code(lines[k]), 0), env), Comment(lines[k]))
  }

  /** What the lines from `k` on become. */
  ghost function Output(lines: seq<string>, k: nat, env: Env): Result<string, Error>
    requires k <= |lines|
    decreases |lines| - k
  {
    if k == |lines| then Success("")
    else
      var l := LineOut(lines, k, env);
      if l.Failure? then l else Prepend(l.value, Output(lines, k + 1, env))
  }

  /** Outside every block a line with a key is kept for one of the two secret keys and rendered for any other. */
  lemma KeyDecides(lines: seq<string>, k: nat, blank: string, dashes: string, gap: string, key: string, rest: string,
                   env: Env)
    requires k < |lines| && forall j: nat :: !Inside(lines, j, k)
    requires Blank(blank) && Dashes(dashes) && Blank(gap) && (dashes == "" ==> gap == "")
    requires key != "" && key[0] !in {'-', '#'} && !IsWhitespace(key[0]) && !IsWhitespace(key[|key| - 1])
    requires (forall c :: 0 <= c < |key| ==> key[c] != ':') && (rest != "" ==> rest[|rest| - 1] != '\n')
    requires lines[k] == blank + (dashes + (gap + (key + [':'] + rest))) + "\n"
    ensures LineOut(lines, k, env) ==
            if key == "container-env" || key == "docker-registry-password" then Success(lines[k])
            else Append(Render(Segments(Code(lines[k]), 0), env), Comment(lines[k]))
  {
    hide Inside, Significant, Key, Indent, KeyColumn, Render, Segments, CodeLength;
    LineShape(blank, dashes, gap, key, rest, "\n");
  }

  /** What stands in a block is kept. */
  lemma BlockContentIsKept(lines: seq<string>, j: nat, k: nat, env: Env)
    requires k < |lines| && Inside(lines, j, k)
    ensures LineOut(lines, k, env) == Success(lines[k])
  {
    hide Inside, Significant, OpensBlock, SecretLine;
  }

  /** Blank lines and comment lines are kept wherever they stand. */
  lemma CommentLinesAreKept(lines: seq<string>, k: nat, blank: string, rest: string, env: Env)
    requires k < |lines| && Blank(blank) && (rest != "" ==> rest[0] == '#' && rest[|rest| - 1] != '\n')
    requires lines[k] == blank + rest + "\n"
    ensures LineOut(lines, k, env) == Success(lines[k])
  {
    var text := blank + rest;
    assert lines[k][..|text|] == text && lines[k][|text|] == '\n';
    assert Content(lines[k]) == text;
    TrimBlanks(blank, rest);
    assert Trimmed(lines[k]) == rest;
    hide InBlock, OpensBlock, SecretLine, Trimmed;
  }

  /** What the walk's one variable knows before line `k`: the column of the outermost open block. */
  ghost predicate Knows(lines: seq<string>, k: nat, block: Option<nat>)
    requires k <= |lines|
  {
    && (forall j: nat :: OpenAt(lines, j, k) ==> block.Some? && KeyColumn(lines[j]) >= block.value)
    && (block.Some? ==> exists j: nat :: OpenAt(lines, j, k) && KeyColumn(lines[j]) == block.value)
  }

  /** A line at or left of the open block's column closes it. */
  function StillOpen(block: Option<nat>, line: string): Option<nat> {
    if block.Some? && Significant(line) && Indent(line) <= block.value then None else block
  }

  function NextBlock(block: Option<nat>, line: string): Option<nat> {
    if StillOpen(block, line).None? && OpensBlock(line) then Some(KeyColumn(line)) else StillOpen(block, line)
  }

  /** A block open before line `k` stays open past it unless the line is too shallow; line `k` may open one. */
  lemma OpenStep(lines: seq<string>, j: nat, k: nat)
    requires k < |lines|
    ensures OpenAt(lines, j, k + 1) <==>
            if j == k then OpensBlock(lines[k])
            else OpenAt(lines, j, k) && (Significant(lines[k]) ==> Indent(lines[k]) > KeyColumn(lines[j]))
    ensures Inside(lines, j, k) <==>
            OpenAt(lines, j, k) && (Significant(lines[k]) ==> Indent(lines[k]) > KeyColumn(lines[j]))
  {
  }

  /** The walk decides block membership exactly, line by line. */
  lemma BlockStep(lines: seq<string>, k: nat, block: Option<nat>)
    requires k < |lines| && Knows(lines, k, block)
    ensures Significant(lines[k]) ==> (InBlock(lines, k) <==> StillOpen(block, lines[k]).Some?)
    ensures Knows(lines, k + 1, NextBlock(block, lines[k]))
  {
    hide Significant, OpensBlock, Indent, KeyColumn, Inside;
    forall j: nat {
      OpenStep(lines, j, k);
    }
    ColumnPastIndent(lines[k]);
    if block.Some? {
      var j: nat :| j < k && OpenAt(lines, j, k) && KeyColumn(lines[j]) == block.value;
      assert StillOpen(block, lines[k]).Some? ==> OpenAt(lines, j, k + 1) && Inside(lines, j, k);
    }
    if OpensBlock(lines[k]) {
      assert OpenAt(lines, k, k + 1);
    }
  }

  lemma ColumnPastIndent(line: string)
    ensures KeyColumn(line) >= Indent(line)
    ensures OpensBlock(line) ==> Significant(line)
  {
  }

  method Interpolate(input: string, env: Env) returns (r: Result<string, Error>)
    ensures r == Output(Lines(input), 0, env)
  {
    hide Knows, OpenAt, InBlock, Render, Segments, Lines, CodeLength, Output, Indent, KeyColumn;
    var lines := Lines(input);
    var output := "";
    var block: Option<nat> := None;
    StartsClosed(lines);
    OutputFrom(lines, env);
    for k := 0 to |lines|
      invariant Knows(lines, k, block)
      invariant Output(lines, 0, env) == Prepend(output, Output(lines, k, env))
    {
      var line := lines[k];
      BlockStep(lines, k, block);
      OutputStep(lines, k, env, output);
      var trimmed := Trimmed(line);
      var indent := Indent(line);
      if trimmed == "" || trimmed[0] == '#' {
        output := output + line;
        continue;
      }
      if block.Some? && indent <= block.value {
        block := None;
      }
      if block.Some? {
        output := output + line;
        continue;
      }
      var key := Key(line);
      if key == "container-env" {
        block := Some(KeyColumn(line));
        output := output + line;
        continue;
      }
      if key == "docker-registry-password" {
        output := output + line;
        continue;
      }
      var code, comment := SplitInlineComment(line);
      var rendered := InterpolateLine(code, env);
      if rendered.Failure? {
        return rendered;
      }
      output := output + (rendered.value + comment);
    }
    return Success(output);
  }

  lemma StartsClosed(lines: seq<string>)
    ensures Knows(lines, 0, None)
  {
  }

  lemma OutputFrom(lines: seq<string>, env: Env)
    ensures Output(lines, 0, env) == Prepend("", Output(lines, 0, env))
    ensures forall p: string :: Prepend(p, Output(lines, |lines|, env)) == Success(p)
  {
    var r := Output(lines, 0, env);
    assert r.Success? ==> "" + r.value == r.value;
    assert forall p: string :: p + "" == p;
  }

  lemma OutputStep(lines: seq<string>, k: nat, env: Env, p: string)
    requires k < |lines|
    ensures var l := LineOut(lines, k, env);
      Prepend(p, Output(lines, k, env)) ==
        if l.Failure? then l else Prepend(p + l.value, Output(lines, k + 1, env))
  {
    var l := LineOut(lines, k, env);
    if l.Success? {
      PrependTwice(p, l.value, Output(lines, k + 1, env));
    }
  }

  // ---- What the definition promises ----

  ghost predicate AllRender(lines: seq<string>, k: nat, to: nat, env: Env)
    requires k <= to <= |lines|
  {
    forall m :: k <= m < to ==> LineOut(lines, m, env).Success?
  }

  /** The text fails with exactly the error of its first failing line. */
  lemma {:induction false} FirstFailureDecides(lines: seq<string>, k: nat, env: Env, e: Error)
    requires k <= |lines|
    ensures Output(lines, k, env) == Failure(e) <==>
            exists m: nat :: k <= m < |lines| && LineOut(lines, m, env) == Failure(e) && AllRender(lines, k, m, env)
    decreases |lines| - k
  {
    hide LineOut;
    if k < |lines| {
      var l := LineOut(lines, k, env);
      if l.Failure? {
        assert AllRender(lines, k, k, env);
      } else {
        FirstFailureDecides(lines, k + 1, env, e);
        forall m: nat | k + 1 <= m < |lines|
          ensures AllRender(lines, k, m, env) <==> AllRender(lines, k + 1, m, env)
        {
        }
      }
    }
  }

  /** The texts of lines that all succeed. */
  ghost function Outs(lines: seq<string>, k: nat, env: Env): seq<string>
    requires k <= |lines| && AllRender(lines, k, |lines|, env)
    decreases |lines| - k
  {
    if k == |lines| then [] else [LineOut(lines, k, env).value] + Outs(lines, k + 1, env)
  }

  lemma {:induction false} OutsAt(lines: seq<string>, k: nat, env: Env, m: nat)
    requires k <= m < |lines| && AllRender(lines, k, |lines|, env)
    ensures |Outs(lines, k, env)| == |lines| - k
    ensures Outs(lines, k, env)[m - k] == LineOut(lines, m, env).value
    decreases |lines| - k
  {
    hide LineOut;
    if k + 1 < |lines| {
      OutsAt(lines, k + 1, env, if m == k then k + 1 else m);
    }
  }

  /** When no line fails, the text is rendered line by line: one output per line, in order. */
  lemma {:induction false} OutputIsLineByLine(lines: seq<string>, k: nat, env: Env)
    requires k <= |lines| && AllRender(lines, k, |lines|, env)
    ensures Output(lines, k, env) == Success(Join(Outs(lines, k, env)))
    ensures forall m: nat :: k <= m < |lines| ==>
      |Outs(lines, k, env)| == |lines| - k && Outs(lines, k, env)[m - k] == LineOut(lines, m, env).value
    decreases |lines| - k
  {
    hide LineOut;
    if k < |lines| {
      assert AllRender(lines, k + 1, |lines|, env);
      OutputIsLineByLine(lines, k + 1, env);
      var l, rest := LineOut(lines, k, env), Outs(lines, k + 1, env);
      assert Outs(lines, k, env) == [l.value] + rest && ([l.value] + rest)[1..] == rest;
    }
    hide Outs;
    forall m: nat | k <= m < |lines| {
      OutsAt(lines, k, env, m);
    }
  }

  /** The two environments give every token of `segs` the same variable. */
  predicate SameFor(segs: seq<Segment>, a: Env, b: Env) {
    forall g :: g in segs && g.Ref? ==>
      (g.token.name in a <==> g.token.name in b) && (g.token.name in a ==> a[g.token.name] == b[g.token.name])
  }

  lemma {:induction false} RenderSame(segs: seq<Segment>, a: Env, b: Env)
    requires SameFor(segs, a, b)
    ensures Render(segs, a) == Render(segs, b)
  {
    if segs != [] {
      assert segs[0] in segs && forall g :: g in segs[1..] ==> g in segs;
      RenderSame(segs[1..], a, b);
    }
  }

  /**
   Only variables referenced in the code of a line that is not kept matter: neither the secrets of
   kept lines nor references in comments can reach the result, not even as an error.
   */
  lemma {:induction false} OnlyReferencedVariablesMatter(lines: seq<string>, k: nat, a: Env, b: Env)
    requires k <= |lines|
    requires forall m :: k <= m < |lines| && !Kept(lines, m) ==> SameFor(Segments(Code(lines[m]), 0), a, b)
    ensures Output(lines, k, a) == Output(lines, k, b)
    decreases |lines| - k
  {
    hide Kept, Segments;
    if k < |lines| {
      if !Kept(lines, k) {
        RenderSame(Segments(Code(lines[k]), 0), a, b);
      }
      OnlyReferencedVariablesMatter(lines, k + 1, a, b);
    }
  }

  predicate NoTokens(segs: seq<Segment>) {
    forall g :: g in segs ==> g.Literal?
  }

  lemma {:induction false} RenderLiteral(segs: seq<Segment>, env: Env)
    requires NoTokens(segs)
    ensures Render(segs, env) == Success(SourceOf(segs))
  {
    if segs != [] {
      assert segs[0] in segs && forall g :: g in segs[1..] ==> g in segs;
      RenderLiteral(segs[1..], env);
    }
  }

  /** Line `k` is kept, or has no token outside its comment. */
  ghost predicate Inert(lines: seq<string>, k: nat)
    requires k < |lines|
  {
    Kept(lines, k) || NoTokens(Segments(Code(lines[k]), 0))
  }

  lemma LineWithoutTokens(lines: seq<string>, k: nat, env: Env)
    requires k < |lines| && Inert(lines, k)
    ensures LineOut(lines, k, env) == Success(lines[k])
  {
    hide Kept;
    var line := lines[k];
    if !Kept(lines, k) {
      RenderLiteral(Segments(Code(line), 0), env);
      SegmentsCoverTheLine(Code(line), 0);
      assert Code(line)[0..] == Code(line);
      assert Code(line) + Comment(line) == line;
    }
  }

  /** A text whose only references are in kept lines and comments comes back unchanged, in any environment. */
  lemma {:induction false} TextWithoutTokens(lines: seq<string>, k: nat, env: Env)
    requires k <= |lines|
    requires forall m :: k <= m < |lines| ==> Inert(lines, m)
    ensures Output(lines, k, env) == Success(Join(lines[k..]))
    decreases |lines| - k
  {
    hide Inert, LineOut;
    if k < |lines| {
      LineWithoutTokens(lines, k, env);
      TextWithoutTokens(lines, k + 1, env);
      assert lines[k..][1..] == lines[k + 1..];
    }
  }

  lemma NothingToInterpolate(input: string, env: Env)
    requires forall m :: 0 <= m < |Lines(input)| ==> Inert(Lines(input), m)
    ensures Output(Lines(input), 0, env) == Success(input)
  {
    hide Inert, Output;
    TextWithoutTokens(Lines(input), 0, env);
    LinesJoin(input);
    assert Lines(input)[0..] == Lines(input);
  }
}
