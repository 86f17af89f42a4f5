/**
 * The prefix-dispatch binder of Arguments.java.  Each formal is classified by its name:
 * `artifact…` names an artifact file, `pom…` a POM value (only pomScm is known), `build…` a
 * build value (only buildOrigin and buildComment are known), and any other formal takes its
 * default.  Overrides and the mandatory check follow, as in every binder.
 */
module ArgumentsBinder {
  import opened Wrappers
  import opened Text
  import opened Failures
  import opened Formals
  import opened Binding
  import opened ScmLookup

  const PomPrefix := "pom"
  const BuildPrefix := "build"

  /** What buildArgs reads of the Maven project. */
  datatype Project = Project(buildDirectory: string, finalName: string, existing: set<string>, scm: Option<Scm>)

  /**
   * The initial value of a formal, by prefix, artifact first.  `origin` is the user and host
   * the build runs on; `comment` is the plugin's comment parameter, None when null.
   */
  function Initial(project: Project, origin: string, comment: Option<string>): Binding.Initial {
    (f: FormalArgument) =>
      if IsArtifact(f.name) then
        ArtifactValue(project.buildDirectory, project.finalName, project.existing, f.name)
      else if StartsWith(f.name, PomPrefix) then
        if f.name == "pomScm" then
          match GetScm(project.scm)
          case Ok(connection) => Ok(Some(connection))
          case Err(e) => Err(e)
        else Err(UnknownPomArgument(f.name))
      else if StartsWith(f.name, BuildPrefix) then
        if f.name == "buildOrigin" then Ok(Some(origin))
        else if f.name == "buildComment" then Ok(comment)
        else Err(UnknownBuildPrefixed(f.name))
      else Ok(f.dflt)
  }

  function Unknown(available: string): string -> Failure {
    name => UnknownArgument(name, available)
  }

  method BuildArgs(formals: seq<FormalArgument>, project: Project, origin: string, comment: Option<string>,
                   overrides: Overrides)
    returns (r: Result<map<string, string>, Failure>)
    ensures CheckedOutcome(formals, Initial(project, origin, comment), overrides, Unknown(AvailableText(formals)), r)
  {
    var available := Available(formals);
    var bound := BindAll(formals, Initial(project, origin, comment), overrides, Unknown(available));
    if bound.Err? {
      return Err(bound.error);
    }
    r := CheckMandatory(bound.value);
  }

  /** No name has two of the three prefixes, so each formal is classified exactly once. */
  lemma PrefixesExclusive(name: string)
    ensures !(IsArtifact(name) && StartsWith(name, PomPrefix))
    ensures !(IsArtifact(name) && StartsWith(name, BuildPrefix))
    ensures !(StartsWith(name, PomPrefix) && StartsWith(name, BuildPrefix))
  {
    if IsArtifact(name) {
      assert name[0] == ArtifactPrefix[0] == 'a';
    }
    if StartsWith(name, PomPrefix) {
      assert name[0] == PomPrefix[0] == 'p';
    }
  }

  /** A pom- or build-prefixed name the binder does not know. */
  predicate UnknownPrefixed(name: string) {
    !IsArtifact(name) &&
    ((StartsWith(name, PomPrefix) && name != "pomScm") ||
     (StartsWith(name, BuildPrefix) && name != "buildOrigin" && name != "buildComment"))
  }

  /**
   * An unknown pom- or build-prefixed formal fails the binding with its own message, whatever the
   * overrides, when every formal before it could be bound.
   */
  lemma UnknownPrefixedFails(formals: seq<FormalArgument>, project: Project, origin: string, comment: Option<string>,
                             overrides: Overrides, r: Result<map<string, string>, Failure>, j: nat)
    requires CheckedOutcome(formals, Initial(project, origin, comment), overrides, Unknown(AvailableText(formals)), r)
    requires j < |formals| && UnknownPrefixed(formals[j].name)
    requires forall i :: 0 <= i < j ==> Initial(project, origin, comment)(formals[i]).Ok?
    ensures StartsWith(formals[j].name, PomPrefix) ==> r == Err(UnknownPomArgument(formals[j].name))
    ensures StartsWith(formals[j].name, BuildPrefix) ==> r == Err(UnknownBuildPrefixed(formals[j].name))
  {
    PrefixesExclusive(formals[j].name);
    BindFirstFailure(formals, Initial(project, origin, comment), j);
  }

  /** A formal without any of the three prefixes: it takes its default. */
  predicate IsPlain(name: string) {
    !IsArtifact(name) && !StartsWith(name, PomPrefix) && !StartsWith(name, BuildPrefix)
  }

  /**
   * What the project must provide for a formal to be bound: the artifact file exists, the name
   * is not an unknown pom or build name, and pomScm finds a connection in the POM's <scm>.
   */
  predicate Provided(project: Project, name: string) {
    (IsArtifact(name) ==> ArtifactFile(project.finalName, name) in project.existing) &&
    !UnknownPrefixed(name) &&
    (name == "pomScm" ==> project.scm.Some? && Connection(project.scm.value).Ok?)
  }

  /** A formal left without a value once the overrides are applied: a null comment, or a plain formal without default. */
  predicate LeftNull(comment: Option<string>, overrides: Overrides, f: FormalArgument) {
    (f.name == "buildComment" && Overriding(overrides, f.name, comment).None?) ||
    (IsPlain(f.name) && Overriding(overrides, f.name, f.dflt).None?)
  }

  /** The value a bound formal holds, name by name: its last override, or else what its prefix gives. */
  predicate BoundByName(project: Project, origin: string, comment: Option<string>, overrides: Overrides,
                        f: FormalArgument, v: string)
  {
    (IsArtifact(f.name) ==>
       Some(v) == Overriding(overrides, f.name,
                             Some(project.finalName + "." + LowerAscii(f.name[|ArtifactPrefix|..])))) &&
    (f.name == "pomScm" ==>
       project.scm.Some? && Connection(project.scm.value).Ok? &&
       Some(v) == Overriding(overrides, f.name, Some(Connection(project.scm.value).value))) &&
    (f.name == "buildOrigin" ==> Some(v) == Overriding(overrides, f.name, Some(origin))) &&
    (f.name == "buildComment" ==> Some(v) == Overriding(overrides, f.name, comment)) &&
    (IsPlain(f.name) ==> Some(v) == Overriding(overrides, f.name, f.dflt))
  }

  /** Overrides never take a value away. */
  lemma {:induction false} OverridingKeepsValue(overrides: Overrides, name: string, current: Option<string>)
    requires current.Some?
    ensures Overriding(overrides, name, current).Some?
    decreases |overrides|
  {
    if overrides != [] && overrides[|overrides| - 1].0 != name {
      OverridingKeepsValue(overrides[..|overrides| - 1], name, current);
    }
  }

  /** One formal's initial and final value, stated name by name. */
  lemma InitialByName(project: Project, origin: string, comment: Option<string>, overrides: Overrides,
                      f: FormalArgument)
    ensures Initial(project, origin, comment)(f).Ok? <==> Provided(project, f.name)
    ensures Initial(project, origin, comment)(f).Err? ==> !Initial(project, origin, comment)(f).error.MandatoryMissing?
    ensures Initial(project, origin, comment)(f).Ok? ==>
              (FinalValue(overrides, Initial(project, origin, comment), f).None? <==> LeftNull(comment, overrides, f))
    ensures Initial(project, origin, comment)(f).Ok? && FinalValue(overrides, Initial(project, origin, comment), f).Some? ==>
              BoundByName(project, origin, comment, overrides, f,
                          FinalValue(overrides, Initial(project, origin, comment), f).value)
  {
    PrefixesExclusive(f.name);
    var v := Initial(project, origin, comment)(f);
    if v.Ok? && v.value.Some? {
      OverridingKeepsValue(overrides, f.name, v.value);
    }
  }

  /**
   * buildArgs succeeds exactly when the project provides every formal, every override names a
   * formal and no formal is left without a value; the result then maps exactly the formal names,
   * each to its last override, else its artifact file name, the POM's SCM connection, the origin,
   * the comment or its default.  A mandatory-argument failure names a formal left without a value.
   */
  lemma BuildArgsResult(formals: seq<FormalArgument>, project: Project, origin: string, comment: Option<string>,
                        overrides: Overrides, r: Result<map<string, string>, Failure>)
    requires DistinctNames(formals)
    requires CheckedOutcome(formals, Initial(project, origin, comment), overrides, Unknown(AvailableText(formals)), r)
    ensures r.Ok? <==>
              (forall i :: 0 <= i < |formals| ==> Provided(project, formals[i].name)) &&
              (forall j :: 0 <= j < |overrides| ==> overrides[j].0 in Names(formals)) &&
              (forall i :: 0 <= i < |formals| ==> !LeftNull(comment, overrides, formals[i]))
    ensures r.Ok? ==>
              r.value.Keys == Names(formals) &&
              forall i :: 0 <= i < |formals| ==>
                BoundByName(project, origin, comment, overrides, formals[i], r.value[formals[i].name])
    ensures r.Err? && r.error.MandatoryMissing? ==>
              exists i :: 0 <= i < |formals| && formals[i].name == r.error.name && LeftNull(comment, overrides, formals[i])
  {
    var initial := Initial(project, origin, comment);
    forall i | 0 <= i < |formals|
      ensures initial(formals[i]).Ok? <==> Provided(project, formals[i].name)
      ensures initial(formals[i]).Err? ==> !initial(formals[i]).error.MandatoryMissing?
      ensures initial(formals[i]).Ok? ==>
                (FinalValue(overrides, initial, formals[i]).None? <==> LeftNull(comment, overrides, formals[i]))
      ensures initial(formals[i]).Ok? && FinalValue(overrides, initial, formals[i]).Some? ==>
                BoundByName(project, origin, comment, overrides, formals[i], FinalValue(overrides, initial, formals[i]).value)
    {
      InitialByName(project, origin, comment, overrides, formals[i]);
    }
    CheckedOutcomeValues(formals, initial, overrides, Unknown(AvailableText(formals)), r);
  }

  /**
   * When every formal could be bound, the first override naming no formal fails with
   * "unknown argument" and the list of the formal names.
   */
  lemma UnknownOverrideFails(formals: seq<FormalArgument>, project: Project, origin: string, comment: Option<string>,
                             overrides: Overrides, r: Result<map<string, string>, Failure>, j: nat)
    requires CheckedOutcome(formals, Initial(project, origin, comment), overrides, Unknown(AvailableText(formals)), r)
    requires forall i :: 0 <= i < |formals| ==> Initial(project, origin, comment)(formals[i]).Ok?
    requires j < |overrides| && overrides[j].0 !in Names(formals)
    requires forall i :: 0 <= i < j ==> overrides[i].0 in Names(formals)
    ensures r == Err(UnknownArgument(overrides[j].0, AvailableText(formals)))
  {
    BindAndOverrideFirstUnknown(formals, Initial(project, origin, comment), overrides, Unknown(AvailableText(formals)), j);
  }
}
