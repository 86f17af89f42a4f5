/**
 * The older `build` goal of Build.java: its own sanitize (which, unlike the placeholder resolver's,
 * drops dots), its binder (artifact files or defaults, then overrides, then the mandatory check)
 * and the `docker build` command line it logs.
 */
module BuildMojo {
  import opened Wrappers
  import opened Text
  import opened Failures
  import opened Formals
  import opened Binding
  import Placeholders

  // ---------------------------------------------------------------- sanitize

  /** The characters this sanitize copies unchanged: [a-z0-9_-]; no dot. */
  predicate Kept(c: char) {
    ('a' <= c <= 'z') || ('0' <= c <= '9') || c == '_' || c == '-'
  }

  function SanitizedChar(c: char): string {
    if Kept(c) then [c] else if IsUpper(c) then [LowerChar(c)] else []
  }

  function Sanitized(s: string): (r: string)
    ensures |r| <= |s|
    decreases |s|
  {
    if s == [] then [] else Sanitized(s[..|s| - 1]) + SanitizedChar(s[|s| - 1])
  }

  method Sanitize(s: string) returns (r: string)
    ensures r == Sanitized(s)
  {
    r := [];
    for i := 0 to |s|
      invariant r == Sanitized(s[..i])
    {
      var c := s[i];
      if Kept(c) {
        r := r + [c];
      } else if IsUpper(c) {
        r := r + [LowerChar(c)];
      }
      assert s[..i + 1][..i] == s[..i];
    }
    assert s[..|s|] == s;
  }

  lemma {:induction false} SanitizedAlphabet(s: string)
    ensures forall i :: 0 <= i < |Sanitized(s)| ==> Kept(Sanitized(s)[i])
    decreases |s|
  {
    if s != [] {
      SanitizedAlphabet(s[..|s| - 1]);
    }
  }

  lemma {:induction false} SanitizedKeepsKept(s: string)
    requires forall i :: 0 <= i < |s| ==> Kept(s[i])
    ensures Sanitized(s) == s
    decreases |s|
  {
    if s != [] {
      SanitizedKeepsKept(s[..|s| - 1]);
      assert s == s[..|s| - 1] + [s[|s| - 1]];
    }
  }

  lemma SanitizedIdempotent(s: string)
    ensures Sanitized(Sanitized(s)) == Sanitized(s)
  {
    SanitizedAlphabet(s);
    SanitizedKeepsKept(Sanitized(s));
  }

  /** The input with every dot removed. */
  function Undotted(s: string): string
    decreases |s|
  {
    if s == [] then [] else Undotted(s[..|s| - 1]) + (if s[|s| - 1] == '.' then [] else [s[|s| - 1]])
  }

  lemma {:induction false} UndottedConcat(a: string, b: string)
    ensures Undotted(a + b) == Undotted(a) + Undotted(b)
    decreases |b|
  {
    if b == [] {
      assert a + b == a;
    } else {
      var b', c := b[..|b| - 1], b[|b| - 1];
      assert a + b == (a + b') + [c] && b == b' + [c];
      assert (a + b)[..|a + b| - 1] == a + b';
      UndottedConcat(a, b');
    }
  }

  /** This sanitize is the placeholder resolver's sanitize with the dots taken out. */
  lemma {:induction false} SanitizedDropsDots(s: string)
    ensures Sanitized(s) == Undotted(Placeholders.Sanitized(s))
    decreases |s|
  {
    if s != [] {
      var front, c := s[..|s| - 1], s[|s| - 1];
      SanitizedDropsDots(front);
      UndottedConcat(Placeholders.Sanitized(front), Placeholders.SanitizedChar(c));
      UndottedChar(c);
    }
  }

  lemma UndottedChar(c: char)
    ensures Undotted(Placeholders.SanitizedChar(c)) == SanitizedChar(c)
  {
    var one := Placeholders.SanitizedChar(c);
    if one != [] {
      assert one[..0] == [];
    }
  }

  // ---------------------------------------------------------------- buildArgs

  /**
   * The initial value of a formal: an `artifact<Type>` formal names the file
   * `<finalName>.<type>`, which must exist in the build directory (`existing` holds the names of
   * the files there); any other formal takes its default.
   */
  function Initial(buildDirectory: string, finalName: string, existing: set<string>): Binding.Initial {
    (f: FormalArgument) =>
      if IsArtifact(f.name) then ArtifactValue(buildDirectory, finalName, existing, f.name)
      else Ok(f.dflt)
  }

  function Unknown(available: string): string -> Failure {
    name => UnknownBuildArgument(name, available)
  }

  /**
   * Build.buildArgs: both passes with the unknown-build-argument failure, then the mandatory
   * check.
   */
  method BuildArgs(formals: seq<FormalArgument>, buildDirectory: string, finalName: string,
                   existing: set<string>, overrides: Overrides)
    returns (r: Result<map<string, string>, Failure>)
    ensures CheckedOutcome(formals, Initial(buildDirectory, finalName, existing), overrides, Unknown(AvailableText(formals)), r)
  {
    var available := Available(formals);
    var bound := BindAll(formals, Initial(buildDirectory, finalName, existing), overrides, Unknown(available));
    if bound.Err? {
      return Err(bound.error);
    }
    r := CheckMandatory(bound.value);
  }

  /** The value a formal should end up with, stated independently of the passes. */
  function Expected(finalName: string, overrides: Overrides, f: FormalArgument): Option<string> {
    Overriding(overrides, f.name, if IsArtifact(f.name) then Some(ArtifactFile(finalName, f.name)) else f.dflt)
  }

  /**
   * Build.buildArgs succeeds exactly when every artifact file exists, every override names a
   * formal and every formal ends up with a value; the result then maps exactly the formal names,
   * each to its expected value.  A mandatory-argument failure names a formal left without one.
   */
  lemma BuildArgsResult(formals: seq<FormalArgument>, buildDirectory: string, finalName: string,
                        existing: set<string>, overrides: Overrides, r: Result<map<string, string>, Failure>)
    requires DistinctNames(formals)
    requires CheckedOutcome(formals, Initial(buildDirectory, finalName, existing), overrides, Unknown(AvailableText(formals)), r)
    ensures r.Ok? <==>
              (forall i :: 0 <= i < |formals| && IsArtifact(formals[i].name) ==>
                 ArtifactFile(finalName, formals[i].name) in existing) &&
              (forall j :: 0 <= j < |overrides| ==> overrides[j].0 in Names(formals)) &&
              (forall i :: 0 <= i < |formals| ==> Expected(finalName, overrides, formals[i]).Some?)
    ensures r.Ok? ==>
              r.value.Keys == Names(formals) &&
              forall i :: 0 <= i < |formals| ==> Some(r.value[formals[i].name]) == Expected(finalName, overrides, formals[i])
    ensures r.Err? && r.error.MandatoryMissing? ==>
              exists i :: 0 <= i < |formals| && formals[i].name == r.error.name &&
                          Expected(finalName, overrides, formals[i]).None?
  {
    var initial := Initial(buildDirectory, finalName, existing);
    CheckedOutcomeValues(formals, initial, overrides, Unknown(AvailableText(formals)), r);
    assert forall i :: 0 <= i < |formals| ==>
      (initial(formals[i]).Ok? <==> (IsArtifact(formals[i].name) ==> ArtifactFile(finalName, formals[i].name) in existing));
    assert forall i :: 0 <= i < |formals| && initial(formals[i]).Ok? ==>
      FinalValue(overrides, initial, formals[i]) == Expected(finalName, overrides, formals[i]);
  }

  /**
   * When every artifact file exists, the first override naming no formal fails with
   * "unknown build argument" and the list of the formal names.
   */
  lemma UnknownOverrideFails(formals: seq<FormalArgument>, buildDirectory: string, finalName: string,
                             existing: set<string>, overrides: Overrides, r: Result<map<string, string>, Failure>, j: nat)
    requires CheckedOutcome(formals, Initial(buildDirectory, finalName, existing), overrides, Unknown(AvailableText(formals)), r)
    requires forall i :: 0 <= i < |formals| && IsArtifact(formals[i].name) ==>
               ArtifactFile(finalName, formals[i].name) in existing
    requires j < |overrides| && overrides[j].0 !in Names(formals)
    requires forall i :: 0 <= i < j ==> overrides[i].0 in Names(formals)
    ensures r == Err(UnknownBuildArgument(overrides[j].0, AvailableText(formals)))
  {
    BindAndOverrideFirstUnknown(formals, Initial(buildDirectory, finalName, existing), overrides, Unknown(AvailableText(formals)), j);
  }

  // ---------------------------------------------------------------- command line

  const DockerBuild := "docker build -t "
  const NoCacheFlag := " --no-cache"
  const BuildArgFlag := " --build-arg "

  /** The command line up to the build arguments: the quoted tag, then --no-cache if asked. */
  function CommandHead(repositoryTag: string, noCache: bool): string {
    DockerBuild + "\"" + repositoryTag + "\"" + (if noCache then NoCacheFlag else "")
  }

  /** One ` --build-arg name=value` per actual, in iteration order. */
  function BuildArgFlags(actuals: Overrides): string
    decreases |actuals|
  {
    if actuals == [] then ""
    else
      var a := actuals[|actuals| - 1];
      BuildArgFlags(actuals[..|actuals| - 1]) + BuildArgFlag + a.0 + "=" + a.1
  }

  /** The command line doBuild logs for a build of `context` whose output goes to `logfile`. */
  function CommandLine(repositoryTag: string, noCache: bool, actuals: Overrides, context: string, logfile: string): string {
    CommandHead(repositoryTag, noCache) + BuildArgFlags(actuals) + " " + context + " >" + logfile
  }

  method RenderCommandLine(repositoryTag: string, noCache: bool, actuals: Overrides, context: string, logfile: string)
    returns (cli: string)
    ensures cli == CommandLine(repositoryTag, noCache, actuals, context, logfile)
  {
    cli := DockerBuild + "\"" + repositoryTag + "\"";
    if noCache {
      cli := cli + NoCacheFlag;
    }
    assert cli == CommandHead(repositoryTag, noCache);
    for i := 0 to |actuals|
      invariant cli == CommandHead(repositoryTag, noCache) + BuildArgFlags(actuals[..i])
    {
      var (name, value) := actuals[i];
      cli := cli + BuildArgFlag + name + "=" + value;
      BuildArgFlagsSnoc(actuals, i);
      AppendFlag(CommandHead(repositoryTag, noCache), BuildArgFlags(actuals[..i]), BuildArgFlag + name + "=" + value);
    }
    assert actuals[..|actuals|] == actuals;
    cli := cli + " " + context;
    cli := cli + " >" + logfile;
  }

  lemma BuildArgFlagsSnoc(actuals: Overrides, i: nat)
    requires i < |actuals|
    ensures BuildArgFlags(actuals[..i + 1]) == BuildArgFlags(actuals[..i]) + (BuildArgFlag + actuals[i].0 + "=" + actuals[i].1)
  {
    assert actuals[..i + 1][..i] == actuals[..i];
  }

  lemma AppendFlag(head: string, flags: string, flag: string)
    ensures head + flags + flag == head + (flags + flag)
  {
  }

  lemma {:induction false} BuildArgFlagsConcat(a: Overrides, b: Overrides)
    ensures BuildArgFlags(a + b) == BuildArgFlags(a) + BuildArgFlags(b)
    decreases |b|
  {
    if b == [] {
      assert a + b == a;
    } else {
      var b', e := b[..|b| - 1], b[|b| - 1];
      assert a + b == (a + b') + [e] && b == b' + [e];
      assert (a + b)[..|a + b| - 1] == a + b';
      BuildArgFlagsConcat(a, b');
    }
  }

  /** `actuals` lists the entries of `m`. */
  predicate Enumerates(actuals: Overrides, m: map<string, string>) {
    (forall i :: 0 <= i < |actuals| ==> actuals[i].0 in m && m[actuals[i].0] == actuals[i].1) &&
    (forall k :: k in m ==> exists i :: 0 <= i < |actuals| && actuals[i].0 == k)
  }

  /** Every bound argument appears on the command line as ` --build-arg name=value`. */
  lemma CommandLineNamesEachArgument(repositoryTag: string, noCache: bool, actuals: Overrides, m: map<string, string>,
                                     context: string, logfile: string, k: string)
    requires Enumerates(actuals, m) && k in m
    ensures exists i :: 0 <= i < |actuals| && actuals[i] == (k, m[k]) &&
              BuildArgFlags(actuals) == BuildArgFlags(actuals[..i]) + BuildArgFlag + k + "=" + m[k] + BuildArgFlags(actuals[i + 1..])
  {
    var i :| 0 <= i < |actuals| && actuals[i].0 == k;
    BuildArgFlagsAt(actuals, i);
  }

  lemma BuildArgFlagsAt(actuals: Overrides, i: nat)
    requires i < |actuals|
    ensures BuildArgFlags(actuals)
         == BuildArgFlags(actuals[..i]) + BuildArgFlag + actuals[i].0 + "=" + actuals[i].1 + BuildArgFlags(actuals[i + 1..])
  {
    var front, e, back := actuals[..i], actuals[i], actuals[i + 1..];
    assert actuals == (front + [e]) + back;
    BuildArgFlagsConcat(front + [e], back);
    assert (front + [e])[..|front|] == front;
  }

  /** --no-cache is the only difference the flag makes, right after the quoted tag. */
  lemma NoCacheOnlyAddsFlag(repositoryTag: string, actuals: Overrides, context: string, logfile: string)
    ensures CommandLine(repositoryTag, true, actuals, context, logfile)
         == CommandHead(repositoryTag, false) + NoCacheFlag
            + CommandLine(repositoryTag, false, actuals, context, logfile)[|CommandHead(repositoryTag, false)|..]
  {
    var head := CommandHead(repositoryTag, false);
    var rest := BuildArgFlags(actuals) + " " + context + " >" + logfile;
    assert CommandLine(repositoryTag, false, actuals, context, logfile) == head + rest;
    assert (head + rest)[|head|..] == rest;
  }
}
