/**
 * The image-name placeholder resolver of model/Placeholders.java: a single left-to-right scan of a
 * template in which `%a`, `%b`, `%g` and `%V` are replaced by sanitized project values.  The two
 * effects of the source, the git branch lookup and the clock, are inputs (see Env).
 */
module Placeholders {
  import opened Wrappers
  import opened Text
  import opened Failures

  // ---------------------------------------------------------------- sanitize

  /** The characters sanitize copies unchanged: [a-z0-9_.-]. */
  predicate Kept(c: char) {
    ('a' <= c <= 'z') || ('0' <= c <= '9') || c == '_' || c == '-' || c == '.'
  }

  /** What sanitize appends for one input character. */
  function SanitizedChar(c: char): string {
    if Kept(c) then [c] else if IsUpper(c) then [LowerChar(c)] else []
  }

  /** The specification of sanitize, defined from the end so that it follows the loop. */
  function Sanitized(s: string): (r: string)
    ensures |r| <= |s|
    decreases |s|
  {
    if s == [] then [] else Sanitized(s[..|s| - 1]) + SanitizedChar(s[|s| - 1])
  }

  method Sanitize(s: string) returns (r: string)
    ensures r == Sanitized(s)
  {
    r := [];
    for i := 0 to |s|
      invariant r == Sanitized(s[..i])
    {
      var c := s[i];
      if Kept(c) {
        r := r + [c];
      } else if IsUpper(c) {
        r := r + [LowerChar(c)];
      }
      assert s[..i + 1][..i] == s[..i];
    }
    assert s[..|s|] == s;
  }

  /** Everything sanitize emits is in [a-z0-9_.-]. */
  lemma {:induction false} SanitizedAlphabet(s: string)
    ensures forall i :: 0 <= i < |Sanitized(s)| ==> Kept(Sanitized(s)[i])
    decreases |s|
  {
    if s != [] {
      SanitizedAlphabet(s[..|s| - 1]);
    }
  }

  lemma SanitizedSnoc(s: string, c: char)
    ensures Sanitized(s + [c]) == Sanitized(s) + SanitizedChar(c)
  {
    assert (s + [c])[..|s|] == s;
  }

  lemma {:induction false} SanitizedConcat(a: string, b: string)
    ensures Sanitized(a + b) == Sanitized(a) + Sanitized(b)
    decreases |b|
  {
    if b == [] {
      assert a + b == a;
    } else {
      var b', c := b[..|b| - 1], b[|b| - 1];
      assert a + b == (a + b') + [c] && b == b' + [c];
      SanitizedConcat(a, b');
      SanitizedSnoc(a + b', c);
      SanitizedSnoc(b', c);
    }
  }

  /**
   * Sanitize works character by character around any position: an upper-case letter is
   * lower-cased in place, not dropped, and a kept character stays where it is.
   */
  lemma SanitizedAt(front: string, c: char, back: string)
    ensures Sanitized(front + [c] + back) == Sanitized(front) + SanitizedChar(c) + Sanitized(back)
    ensures IsUpper(c) ==> Sanitized(front + [c] + back) == Sanitized(front) + [LowerChar(c)] + Sanitized(back)
    ensures Kept(c) ==> Sanitized(front + [c] + back) == Sanitized(front) + [c] + Sanitized(back)
  {
    var upTo := front + [c];
    SanitizedConcat(upTo, back);
    SanitizedSnoc(front, c);
    SanitizedCharCases(c);
  }

  lemma SanitizedCharCases(c: char)
    ensures IsUpper(c) ==> SanitizedChar(c) == [LowerChar(c)]
    ensures Kept(c) ==> SanitizedChar(c) == [c]
  {
  }

  /** A string made only of kept characters is its own sanitization. */
  lemma {:induction false} SanitizedKeepsKept(s: string)
    requires forall i :: 0 <= i < |s| ==> Kept(s[i])
    ensures Sanitized(s) == s
    decreases |s|
  {
    if s != [] {
      SanitizedKeepsKept(s[..|s| - 1]);
      assert s == s[..|s| - 1] + [s[|s| - 1]];
    }
  }

  lemma SanitizedIdempotent(s: string)
    ensures Sanitized(Sanitized(s)) == Sanitized(s)
  {
    SanitizedAlphabet(s);
    SanitizedKeepsKept(Sanitized(s));
  }

  /** An independent reference: keep the kept characters, scanning from the front. */
  function KeptOnly(s: string): string {
    if s == [] then [] else (if Kept(s[0]) then [s[0]] else []) + KeptOnly(s[1..])
  }

  lemma {:induction false} KeptOnlySnoc(s: string, c: char)
    ensures KeptOnly(s + [c]) == KeptOnly(s) + (if Kept(c) then [c] else [])
    decreases |s|
  {
    var t := s + [c];
    if s == [] {
      assert t == [c] && t[1..] == [];
    } else {
      var head := if Kept(s[0]) then [s[0]] else [];
      assert t[0] == s[0] && t[1..] == s[1..] + [c];
      assert KeptOnly(t) == head + KeptOnly(s[1..] + [c]);
      KeptOnlySnoc(s[1..], c);
      assert KeptOnly(s) == head + KeptOnly(s[1..]);
    }
  }

  /** Sanitize is the order-preserving selection of the kept characters of the lower-cased input. */
  lemma {:induction false} SanitizedIsKeptOfLowercase(s: string)
    ensures Sanitized(s) == KeptOnly(LowerAscii(s))
    decreases |s|
  {
    if s != [] {
      var s', c := s[..|s| - 1], s[|s| - 1];
      SanitizedIsKeptOfLowercase(s');
      assert LowerAscii(s) == LowerAscii(s') + [LowerChar(c)];
      KeptOnlySnoc(LowerAscii(s'), LowerChar(c));
    }
  }

  // ---------------------------------------------------------------- project values

  datatype Project = Project(groupId: string, artifactId: string, version: string)

  /**
   * The inputs of one resolution: the project, the output of `git symbolic-ref --short -q HEAD`
   * in the working directory (or the reason it failed), and the formatted clock
   * (pattern yyyyMMdd-HHmmss-SSS).
   */
  datatype Env = Env(project: Project, gitBranch: Result<string, string>, timestamp: string)

  function Artifact(p: Project): string {
    Sanitized(p.artifactId)
  }

  function Group(p: Project): string {
    var idx := LastIndexOf(p.groupId, '.');
    Sanitized(if idx == -1 then p.groupId else p.groupId[idx + 1..])
  }

  const SnapshotSuffix := "-SNAPSHOT"

  /** The source cuts `length - 9 + 1` characters, so the hyphen before the timestamp stays. */
  function Version(p: Project, timestamp: string): string {
    var v := p.version;
    if EndsWith(v, SnapshotSuffix) then Sanitized(v[..|v| - |SnapshotSuffix| + 1] + timestamp)
    else Sanitized(v)
  }

  function Branch(env: Env): Result<string, Failure> {
    match env.gitBranch
    case Ok(out) => Ok(Sanitized(Trim(out)))
    case Err(reason) => Err(NoBranch(reason))
  }

  lemma GroupIsLastSegment(p: Project, front: string, last: string)
    ensures '.' !in p.groupId ==> Group(p) == Sanitized(p.groupId)
    ensures p.groupId == front + "." + last && '.' !in last ==> Group(p) == Sanitized(last)
  {
    if p.groupId == front + "." + last && '.' !in last {
      LastIndexOfSplit(front, '.', last);
      assert p.groupId[|front| + 1..] == last;
    }
  }

  lemma VersionCases(p: Project, base: string, timestamp: string)
    ensures p.version == base + SnapshotSuffix ==> Version(p, timestamp) == Sanitized(base + "-" + timestamp)
    ensures !EndsWith(p.version, SnapshotSuffix) ==> Version(p, timestamp) == Sanitized(p.version)
  {
    if p.version == base + SnapshotSuffix {
      assert p.version[..|p.version| - |SnapshotSuffix| + 1] == base + "-";
    }
  }

  // ---------------------------------------------------------------- resolve

  /** Prefixes a successful result with already produced text. */
  function Prepend(done: string, r: Result<string, Failure>): Result<string, Failure> {
    match r
    case Ok(rest) => Ok(done + rest)
    case Err(e) => Err(e)
  }

  lemma PrependNothing(r: Result<string, Failure>)
    ensures Prepend([], r) == r
  {
    if r.Ok? {
      assert [] + r.value == r.value;
    }
  }

  lemma PrependTwice(a: string, b: string, r: Result<string, Failure>)
    ensures Prepend(a, Prepend(b, r)) == Prepend(a + b, r)
  {
    if r.Ok? {
      assert a + (b + r.value) == (a + b) + r.value;
    }
  }

  /** The value of the placeholder character c of template str. */
  function Placeholder(str: string, c: char, env: Env): Result<string, Failure> {
    match c
    case 'a' => Ok(Artifact(env.project))
    case 'b' => Branch(env)
    case 'g' => Ok(Group(env.project))
    case 'V' => Ok(Version(env.project, env.timestamp))
    case _ => Err(UnknownPlaceholder(str))
  }

  /** The scan of str from index i; the first failure in scan order wins. */
  function ResolveFrom(str: string, i: nat, env: Env): Result<string, Failure>
    requires i <= |str|
    decreases |str| - i
  {
    if i == |str| then Ok([])
    else if str[i] != '%' then Prepend([str[i]], ResolveFrom(str, i + 1, env))
    else if i + 1 >= |str| then Err(InvalidPlaceholder(str))
    else
      var value :- Placeholder(str, str[i + 1], env);
      Prepend(value, ResolveFrom(str, i + 2, env))
  }

  function Resolved(str: string, env: Env): Result<string, Failure> {
    ResolveFrom(str, 0, env)
  }

  method Resolve(str: string, env: Env) returns (r: Result<string, Failure>)
    ensures r == Resolved(str, env)
  {
    var result := "";
    var i := 0;
    PrependNothing(Resolved(str, env));
    while i < |str|
      invariant 0 <= i <= |str|
      invariant Resolved(str, env) == Prepend(result, ResolveFrom(str, i, env))
    {
      var c := str[i];
      if c == '%' {
        if i + 1 >= |str| {
          return Err(InvalidPlaceholder(str));
        }
        assert Placeholder(str, str[i + 1], env).Ok? ==>
          ResolveFrom(str, i, env) == Prepend(Placeholder(str, str[i + 1], env).value, ResolveFrom(str, i + 2, env));
        i := i + 1;
        var value: string;
        match str[i] {
          case 'a' =>
            value := Artifact(env.project);
          case 'b' =>
            var branch := Branch(env);
            if branch.Err? {
              return Err(branch.error);
            }
            value := branch.value;
          case 'g' =>
            value := Group(env.project);
          case 'V' =>
            value := Version(env.project, env.timestamp);
          case _ =>
            return Err(UnknownPlaceholder(str));
        }
        PrependTwice(result, value, ResolveFrom(str, i + 1, env));
        result := result + value;
      } else {
        PrependTwice(result, [c], ResolveFrom(str, i + 1, env));
        result := result + [c];
      }
      i := i + 1;
    }
    assert result + [] == result;
    return Ok(result);
  }

  // ---------------------------------------------------------------- properties of resolve

  lemma {:induction false} LiteralSuffix(str: string, i: nat, env: Env)
    requires i <= |str|
    requires '%' !in str[i..]
    ensures ResolveFrom(str, i, env) == Ok(str[i..])
    decreases |str| - i
  {
    if i < |str| {
      assert str[i..] == [str[i]] + str[i + 1..];
      assert str[i] != '%' && '%' !in str[i + 1..];
      LiteralSuffix(str, i + 1, env);
      assert ResolveFrom(str, i, env) == Prepend([str[i]], ResolveFrom(str, i + 1, env));
    } else {
      assert str[i..] == [];
    }
  }

  /** A template without `%` resolves to itself. */
  lemma ResolvedWithoutPlaceholders(str: string, env: Env)
    requires '%' !in str
    ensures Resolved(str, env) == Ok(str)
  {
    LiteralSuffix(str, 0, env);
  }

  /** Characters before the first `%` are copied unchanged and in order, ahead of everything else. */
  lemma {:induction false} LiteralPrefix(a: string, b: string, i: nat, env: Env)
    requires i <= |a|
    requires '%' !in a
    ensures ResolveFrom(a + b, i, env) == Prepend(a[i..], ResolveFrom(a + b, |a|, env))
    decreases |a| - i
  {
    if i < |a| {
      assert (a + b)[i] == a[i];
      LiteralPrefix(a, b, i + 1, env);
      assert a[i..] == [a[i]] + a[i + 1..];
      PrependTwice([a[i]], a[i + 1..], ResolveFrom(a + b, |a|, env));
    } else {
      assert a[i..] == [];
      PrependNothing(ResolveFrom(a + b, |a|, env));
    }
  }

  /** A placeholder's value does not depend on the template, unless it is unknown. */
  lemma PlaceholderOfAnyTemplate(s: string, t: string, c: char, env: Env)
    requires Placeholder(s, c, env).Ok?
    ensures Placeholder(t, c, env) == Placeholder(s, c, env)
  {
  }

  /**
   * A prefix that resolves on its own is resolved the same way inside a longer template: the scan
   * reaches its end exactly, and what follows is resolved from there.
   */
  lemma {:induction false} ResolvedPrefix(a: string, b: string, i: nat, env: Env)
    requires i <= |a|
    requires ResolveFrom(a, i, env).Ok?
    ensures ResolveFrom(a + b, i, env) == Prepend(ResolveFrom(a, i, env).value, ResolveFrom(a + b, |a|, env))
    decreases |a| - i
  {
    var str := a + b;
    if i == |a| {
      PrependNothing(ResolveFrom(str, |a|, env));
    } else if a[i] != '%' {
      assert str[i] == a[i];
      ResolvedPrefix(a, b, i + 1, env);
      PrependTwice([a[i]], ResolveFrom(a, i + 1, env).value, ResolveFrom(str, |a|, env));
    } else {
      assert i + 1 < |a|;
      assert str[i] == '%' && str[i + 1] == a[i + 1];
      PlaceholderOfAnyTemplate(a, str, a[i + 1], env);
      ResolvedPrefix(a, b, i + 2, env);
      PrependTwice(Placeholder(a, a[i + 1], env).value, ResolveFrom(a, i + 2, env).value, ResolveFrom(str, |a|, env));
    }
  }

  /** A `%` that ends the template, after any text that resolves, is an invalid placeholder. */
  lemma TrailingPercent(a: string, env: Env)
    requires Resolved(a, env).Ok?
    ensures Resolved(a + "%", env) == Err(InvalidPlaceholder(a + "%"))
  {
    ResolvedPrefix(a, "%", 0, env);
  }

  /**
   * Any character after `%` other than a, b, g, V (a second `%` included) is an unknown
   * placeholder, wherever it occurs after text that resolves and whatever follows.
   */
  lemma UnknownAfterPercent(a: string, c: char, b: string, env: Env)
    requires Resolved(a, env).Ok?
    requires c !in "abgV"
    ensures Resolved(a + ['%', c] + b, env) == Err(UnknownPlaceholder(a + ['%', c] + b))
  {
    var str := a + ['%', c] + b;
    assert str == a + (['%', c] + b);
    ResolvedPrefix(a, ['%', c] + b, 0, env);
    assert str[|a|] == '%' && str[|a| + 1] == c;
  }

  /** A literal `%` cannot be written: `%%` is an unknown placeholder. */
  lemma DoublePercent(a: string, b: string, env: Env)
    requires Resolved(a, env).Ok?
    ensures Resolved(a + "%%" + b, env) == Err(UnknownPlaceholder(a + "%%" + b))
  {
    assert a + "%%" + b == a + ['%', '%'] + b;
    UnknownAfterPercent(a, '%', b, env);
  }

  /** Every character of a resolved name is either sanitized or a non-`%` character of the template. */
  lemma {:induction false} ResolvedCharacters(str: string, i: nat, env: Env, r: string)
    requires i <= |str|
    requires ResolveFrom(str, i, env) == Ok(r)
    ensures forall k :: 0 <= k < |r| ==> Kept(r[k]) || (r[k] in str && r[k] != '%')
    decreases |str| - i
  {
    if i < |str| {
      if str[i] != '%' {
        var rest := ResolveFrom(str, i + 1, env);
        ResolvedCharacters(str, i + 1, env, rest.value);
        assert r == [str[i]] + rest.value;
      } else {
        var value := Placeholder(str, str[i + 1], env).value;
        var rest := ResolveFrom(str, i + 2, env);
        ResolvedCharacters(str, i + 2, env, rest.value);
        assert r == value + rest.value;
        match str[i + 1]
        case 'a' => SanitizedAlphabet(env.project.artifactId);
        case 'g' =>
          var g := env.project.groupId;
          var idx := LastIndexOf(g, '.');
          SanitizedAlphabet(if idx == -1 then g else g[idx + 1..]);
        case 'V' =>
          var v := env.project.version;
          SanitizedAlphabet(if EndsWith(v, SnapshotSuffix) then v[..|v| - |SnapshotSuffix| + 1] + env.timestamp else v);
        case 'b' => SanitizedAlphabet(Trim(env.gitBranch.value));
      }
    }
  }

  /** A failure is one of the three the source throws, and it names the whole template. */
  lemma {:induction false} ResolveFailures(str: string, i: nat, env: Env)
    requires i <= |str|
    requires ResolveFrom(str, i, env).Err?
    ensures ResolveFrom(str, i, env).error in {InvalidPlaceholder(str), UnknownPlaceholder(str)}
         || (ResolveFrom(str, i, env).error.NoBranch? && env.gitBranch.Err?
             && ResolveFrom(str, i, env).error.reason == env.gitBranch.error)
    ensures ResolveFrom(str, i, env).error == InvalidPlaceholder(str) ==> str[|str| - 1] == '%'
    decreases |str| - i
  {
    if str[i] != '%' {
      ResolveFailures(str, i + 1, env);
    } else if i + 1 < |str| && Placeholder(str, str[i + 1], env).Ok? {
      ResolveFailures(str, i + 2, env);
    }
  }

  /** For a release version the clock does not matter: only snapshot names carry the timestamp. */
  lemma {:induction false} ReleaseIgnoresClock(str: string, i: nat, env: Env, timestamp: string)
    requires i <= |str|
    requires !EndsWith(env.project.version, SnapshotSuffix)
    ensures ResolveFrom(str, i, env) == ResolveFrom(str, i, env.(timestamp := timestamp))
    decreases |str| - i
  {
    var env' := env.(timestamp := timestamp);
    VersionCases(env.project, [], env.timestamp);
    VersionCases(env.project, [], timestamp);
    if i < |str| {
      if str[i] != '%' {
        ReleaseIgnoresClock(str, i + 1, env, timestamp);
      } else if i + 1 < |str| {
        assert Placeholder(str, str[i + 1], env) == Placeholder(str, str[i + 1], env');
        ReleaseIgnoresClock(str, i + 2, env, timestamp);
      }
    }
  }
}
