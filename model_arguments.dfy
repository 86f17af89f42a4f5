// model/Arguments.java: the actual build arguments of the newer build mojo.
// An Arguments object owns a result map that is filled in three passes:
// addArtifacts binds the artifact arguments, addExplicit binds the configured
// values after evaluating their directives (eval), and result() fills in the
// defaults and checks that nothing mandatory is left unbound.

module ModelArguments {
  import opened Wrappers
  import opened Text
  import opened Failures
  import opened Formals
  import opened Binding
  import Utf8
  import Base64

  // ---------------------------------------------------------------- eval

  /**
   * The `%file:` directive: the named file copied through Maven's resource
   * filter and read back, or the filter's failure.
   */
  type FileFilter = string -> Result<string, Failure>

  const Base64Directive := "base64"
  const FileDirective := "file"

  /** A directive applied to the already evaluated rest of the value. */
  function Apply(name: string, value: string, filter: FileFilter): Result<string, Failure> {
    if name == Base64Directive then Ok(Base64.Encode(Utf8.Encode(value)))
    else if name == FileDirective then filter(value)
    else Err(UnknownDirective(name))
  }

  /**
   * A value is taken literally unless it starts with '%'; then the text up to
   * the first ':' names a directive, which is applied to the evaluation of the
   * text after that ':'.
   */
  function Eval(value: string, filter: FileFilter): (r: Result<string, Failure>)
    ensures !StartsWith(value, "%") ==> r == Ok(value)
    ensures StartsWith(value, "%") && ':' !in value ==> r == Err(InvalidValue(value))
    ensures r.Err? ==> StartsWith(value, "%")
    decreases |value|
  {
    if StartsWith(value, "%") then
      var idx := IndexOf(value, ':');
      if idx == -1 then Err(InvalidValue(value))
      else
        assert value[0] == '%';
        var rest :- Eval(value[idx + 1..], filter);
        Apply(value[1..idx], rest, filter)
    else Ok(value)
  }

  /** A value not starting with '%' is returned unchanged. */
  lemma EvalLiteral(value: string, filter: FileFilter)
    requires value == [] || value[0] != '%'
    ensures Eval(value, filter) == Ok(value)
  {
  }

  /** A '%' value without ':' is invalid. */
  lemma EvalWithoutColon(value: string, filter: FileFilter)
    requires value != [] && value[0] == '%' && ':' !in value
    ensures Eval(value, filter) == Err(InvalidValue(value))
  {
    assert IndexOf(value, ':') == -1;
  }

  /**
   * The directive is the text between '%' and the first ':'; the rest is
   * evaluated first, and its failure wins over the directive's.
   */
  lemma EvalDirective(name: string, rest: string, filter: FileFilter)
    requires ':' !in name
    ensures Eval("%" + name + ":" + rest, filter)
         == match Eval(rest, filter)
            case Err(e) => Err(e)
            case Ok(v) => Apply(name, v, filter)
  {
    var value := "%" + name + ":" + rest;
    assert value == ['%'] + name + [':'] + rest;
    assert value[0] == '%';
    var idx := IndexOf(value, ':');
    assert value[|name| + 1] == ':';
    assert idx == |name| + 1 by {
      forall i | 1 <= i <= |name| ensures value[i] != ':' {
        assert value[i] == name[i - 1];
      }
    }
    assert value[1..idx] == name;
    assert value[idx + 1..] == rest;
  }

  /** `%base64:` encodes the UTF-8 bytes of the evaluated rest; decoding gives that text back. */
  lemma EvalBase64(rest: string, filter: FileFilter)
    ensures Eval("%" + Base64Directive + ":" + rest, filter).Ok? <==> Eval(rest, filter).Ok?
    ensures Eval("%" + Base64Directive + ":" + rest, filter).Ok? ==>
              Eval("%" + Base64Directive + ":" + rest, filter).value
                == Base64.Encode(Utf8.Encode(Eval(rest, filter).value))
              && Base64.Decode(Eval("%" + Base64Directive + ":" + rest, filter).value)
                == Some(Utf8.Encode(Eval(rest, filter).value))
              && Utf8.Decode(Utf8.Encode(Eval(rest, filter).value)) == Some(Eval(rest, filter).value)
  {
    EvalDirective(Base64Directive, rest, filter);
    var e := Eval(rest, filter);
    if e.Ok? {
      Base64.DecodeEncode(Utf8.Encode(e.value));
      Utf8.DecodeEncode(e.value);
    }
  }

  /** Any other directive, the empty one of `%:x` included, is unknown. */
  lemma EvalUnknownDirective(name: string, rest: string, filter: FileFilter)
    requires ':' !in name && name != Base64Directive && name != FileDirective
    requires Eval(rest, filter).Ok?
    ensures Eval("%" + name + ":" + rest, filter) == Err(UnknownDirective(name))
  {
    EvalDirective(name, rest, filter);
  }

  lemma HiBytes()
    ensures Utf8.Encode("hi") == [104, 105]
  {
    assert "hi"[1..] == "i" && "i"[1..] == "";
  }

  lemma HiEncoded()
    ensures Base64.Encode([104, 105]) == "aGk="
  {
    assert Base64.Sextets([104, 105]) == [26, 6, 36, Base64.Pad];
  }

  /** `%base64:hi` is "aGk=". */
  lemma EvalBase64Hi(filter: FileFilter)
    ensures Eval("%" + Base64Directive + ":" + "hi", filter) == Ok("aGk=")
  {
    EvalDirective(Base64Directive, "hi", filter);
    HiBytes();
    HiEncoded();
  }

  // ---------------------------------------------------------------- the three passes, as values

  /** The artifact pass over `formals` in iteration order, starting from `m`. */
  function Artifacts(formals: seq<FormalArgument>, directory: string, artifactName: string,
                     existing: set<string>, m: Bound): Result<Bound, Failure>
    decreases |formals|
  {
    if formals == [] then Ok(m)
    else
      var before :- Artifacts(formals[..|formals| - 1], directory, artifactName, existing, m);
      var f := formals[|formals| - 1];
      if IsArtifact(f.name) then
        var v :- ArtifactValue(directory, artifactName, existing, f.name);
        Ok(before[f.name := v])
      else Ok(before)
  }

  /** The explicit pass: names must be formal, values are evaluated, later entries win. */
  function Explicit(formals: seq<FormalArgument>, arguments: Overrides, filter: FileFilter, m: Bound)
    : Result<Bound, Failure>
    decreases |arguments|
  {
    if arguments == [] then Ok(m)
    else
      var before :- Explicit(formals, arguments[..|arguments| - 1], filter, m);
      var (name, value) := arguments[|arguments| - 1];
      if name !in Names(formals) then Err(UnknownArgument(name, AvailableText(formals)))
      else
        var v :- Eval(value, filter);
        Ok(before[name := Some(v)])
  }

  /** The default pass of result(): a formal not yet bound gets its default (possibly null). */
  function Defaulted(formals: seq<FormalArgument>, m: Bound): Bound
    decreases |formals|
  {
    if formals == [] then m
    else
      var before := Defaulted(formals[..|formals| - 1], m);
      var f := formals[|formals| - 1];
      if f.name in before then before else before[f.name := f.dflt]
  }

  // ---------------------------------------------------------------- the class

  class Arguments {
    const formals: seq<FormalArgument>
    var result: Bound

    constructor(formals: seq<FormalArgument>)
      ensures this.formals == formals && result == map[]
    {
      this.formals := formals;
      result := map[];
    }

    /**
     * Binds every artifact argument to its file name, failing on the first
     * artifact file missing from `directory`; copying the file into the build
     * context is not modelled.
     */
    method AddArtifacts(directory: string, artifactName: string, existing: set<string>) returns (r: Outcome<Failure>)
      modifies this
      ensures r.Pass? <==> Artifacts(formals, directory, artifactName, existing, old(result)).Ok?
      ensures r.Pass? ==> Artifacts(formals, directory, artifactName, existing, old(result)) == Ok(result)
      ensures r.Fail? ==> Artifacts(formals, directory, artifactName, existing, old(result)) == Err(r.error)
      ensures r.Fail? ==> (exists j :: 0 <= j < |formals| && IsArtifact(formals[j].name)
                             && Artifacts(formals[..j], directory, artifactName, existing, old(result)) == Ok(result)
                             && ArtifactValue(directory, artifactName, existing, formals[j].name) == Err(r.error))
    {
      ghost var start := result;
      for i := 0 to |formals|
        invariant Artifacts(formals[..i], directory, artifactName, existing, start) == Ok(result)
      {
        var f := formals[i];
        assert formals[..i + 1][..i] == formals[..i];
        if IsArtifact(f.name) {
          var file := ArtifactFile(artifactName, f.name);
          if file !in existing {
            var e := FileNotFound(directory + "/" + file);
            assert Artifacts(formals[..i + 1], directory, artifactName, existing, start) == Err(e);
            ArtifactsErrSticks(formals, directory, artifactName, existing, start, i + 1);
            return Fail(e);
          }
          result := result[f.name := Some(file)];
        }
      }
      assert formals[..|formals|] == formals;
      return Pass;
    }

    /**
     * Binds each configured argument to its evaluated value, failing on the
     * first name that is not a formal argument or value that does not evaluate.
     */
    method AddExplicit(arguments: Overrides, filter: FileFilter) returns (r: Outcome<Failure>)
      modifies this
      ensures r.Pass? <==> Explicit(formals, arguments, filter, old(result)).Ok?
      ensures r.Pass? ==> Explicit(formals, arguments, filter, old(result)) == Ok(result)
      ensures r.Fail? ==> Explicit(formals, arguments, filter, old(result)) == Err(r.error)
      ensures r.Fail? ==> (exists j :: 0 <= j < |arguments|
                             && Explicit(formals, arguments[..j], filter, old(result)) == Ok(result)
                             && Explicit(formals, arguments[..j + 1], filter, old(result)) == Err(r.error))
    {
      ghost var start := result;
      var available := Available(formals);
      for i := 0 to |arguments|
        invariant Explicit(formals, arguments[..i], filter, start) == Ok(result)
      {
        var (name, value) := arguments[i];
        assert arguments[..i + 1][..i] == arguments[..i];
        if !(exists f :: f in formals && f.name == name) {
          assert name !in Names(formals);
          var e := UnknownArgument(name, available);
          ExplicitErrSticks(formals, arguments, filter, start, i + 1);
          return Fail(e);
        }
        var v := Eval(value, filter);
        if v.Err? {
          ExplicitErrSticks(formals, arguments, filter, start, i + 1);
          return Fail(v.error);
        }
        result := result[name := Some(v.value)];
      }
      assert arguments[..|arguments|] == arguments;
      return Pass;
    }

    /** Fills in the defaults, then checks that no argument is left null. */
    method Result() returns (r: Result<map<string, string>, Failure>)
      modifies this
      ensures result == Defaulted(formals, old(result))
      ensures Checked(result, r)
    {
      ghost var start := result;
      for i := 0 to |formals|
        invariant Defaulted(formals[..i], start) == result
      {
        var f := formals[i];
        assert formals[..i + 1][..i] == formals[..i];
        if f.name !in result {
          result := result[f.name := f.dflt];
        }
      }
      assert formals[..|formals|] == formals;
      r := CheckMandatory(result);
    }
  }

  // ---------------------------------------------------------------- properties of the passes

  lemma {:induction false} ArtifactsErrSticks(formals: seq<FormalArgument>, directory: string, artifactName: string,
                                              existing: set<string>, m: Bound, i: nat)
    requires i <= |formals| && Artifacts(formals[..i], directory, artifactName, existing, m).Err?
    ensures Artifacts(formals, directory, artifactName, existing, m) == Artifacts(formals[..i], directory, artifactName, existing, m)
    decreases |formals| - i
  {
    if i < |formals| {
      assert formals[..i + 1][..i] == formals[..i];
      ArtifactsErrSticks(formals, directory, artifactName, existing, m, i + 1);
    } else {
      assert formals[..i] == formals;
    }
  }

  lemma {:induction false} ExplicitErrSticks(formals: seq<FormalArgument>, arguments: Overrides, filter: FileFilter,
                                             m: Bound, i: nat)
    requires i <= |arguments| && Explicit(formals, arguments[..i], filter, m).Err?
    ensures Explicit(formals, arguments, filter, m) == Explicit(formals, arguments[..i], filter, m)
    decreases |arguments| - i
  {
    if i < |arguments| {
      assert arguments[..i + 1][..i] == arguments[..i];
      ExplicitErrSticks(formals, arguments, filter, m, i + 1);
    } else {
      assert arguments[..i] == arguments;
    }
  }

  /** The names of the artifact arguments among `formals`. */
  function ArtifactNames(formals: seq<FormalArgument>): (r: set<string>)
    ensures forall f :: f in formals && IsArtifact(f.name) ==> f.name in r
    ensures forall k :: k in r ==> IsArtifact(k)
    decreases |formals|
  {
    if formals == [] then {}
    else
      var f := formals[|formals| - 1];
      ArtifactNames(formals[..|formals| - 1]) + (if IsArtifact(f.name) then {f.name} else {})
  }

  /** The names the configured arguments give. */
  function Configured(arguments: Overrides): (r: set<string>)
    ensures forall j :: 0 <= j < |arguments| ==> arguments[j].0 in r
    decreases |arguments|
  {
    if arguments == [] then {}
    else Configured(arguments[..|arguments| - 1]) + {arguments[|arguments| - 1].0}
  }

  /**
   * The artifact pass succeeds exactly when every artifact file exists; it
   * then binds each artifact argument to `artifactName.<lower-cased suffix>`
   * and leaves every other key as it was.
   */
  lemma {:induction false} ArtifactsResult(formals: seq<FormalArgument>, directory: string, artifactName: string,
                                           existing: set<string>, m: Bound)
    ensures Artifacts(formals, directory, artifactName, existing, m).Ok? <==>
              forall f :: f in formals && IsArtifact(f.name) ==> ArtifactFile(artifactName, f.name) in existing
    ensures Artifacts(formals, directory, artifactName, existing, m).Ok? ==>
              var r := Artifacts(formals, directory, artifactName, existing, m).value;
              && r.Keys == m.Keys + ArtifactNames(formals)
              && (forall k :: k in r && k !in ArtifactNames(formals) ==> k in m && r[k] == m[k])
              && (forall k :: k in ArtifactNames(formals) ==> k in r && r[k] == Some(ArtifactFile(artifactName, k)))
    decreases |formals|
  {
    if formals != [] {
      var front := formals[..|formals| - 1];
      var f := formals[|formals| - 1];
      ArtifactsResult(front, directory, artifactName, existing, m);
      assert forall g :: g in formals ==> g in front || g == f;
    }
  }

  /** The explicit pass fails on the first name that is not a formal argument. */
  lemma {:induction false} ExplicitUnknownName(formals: seq<FormalArgument>, arguments: Overrides, filter: FileFilter,
                                               m: Bound, j: nat)
    requires j < |arguments| && arguments[j].0 !in Names(formals)
    requires Explicit(formals, arguments[..j], filter, m).Ok?
    ensures Explicit(formals, arguments, filter, m) == Err(UnknownArgument(arguments[j].0, AvailableText(formals)))
  {
    assert arguments[..j + 1][..j] == arguments[..j];
    ExplicitErrSticks(formals, arguments, filter, m, j + 1);
  }

  /** The value a configured argument gives `name`: the evaluation of its last entry. */
  predicate ExplicitValue(arguments: Overrides, filter: FileFilter, name: string, before: Option<string>,
                          after: Option<string>)
  {
    match Overriding(arguments, name, None)
    case None => after == before
    case Some(raw) => Eval(raw, filter).Ok? && after == Some(Eval(raw, filter).value)
  }

  /**
   * The explicit pass succeeds exactly when every name is a formal argument
   * and every value evaluates; it then adds the configured names to the keys
   * and binds each to the evaluation of its last entry.
   */
  lemma {:induction false} ExplicitResult(formals: seq<FormalArgument>, arguments: Overrides, filter: FileFilter,
                                          m: Bound)
    ensures Explicit(formals, arguments, filter, m).Ok? <==>
              forall j :: 0 <= j < |arguments| ==>
                arguments[j].0 in Names(formals) && Eval(arguments[j].1, filter).Ok?
    ensures Explicit(formals, arguments, filter, m).Ok? ==>
              var r := Explicit(formals, arguments, filter, m).value;
              && r.Keys == m.Keys + Configured(arguments)
              && forall k :: k in r ==> ExplicitValue(arguments, filter, k, if k in m then m[k] else None, r[k])
    decreases |arguments|
  {
    if arguments != [] {
      var front := arguments[..|arguments| - 1];
      ExplicitResult(formals, front, filter, m);
      assert forall j :: 0 <= j < |front| ==> front[j] == arguments[j];
    }
  }

  /** After the default pass every formal is a key, and keys bound before keep their value. */
  lemma {:induction false} DefaultedKeys(formals: seq<FormalArgument>, m: Bound)
    ensures Defaulted(formals, m).Keys == m.Keys + Names(formals)
    ensures forall k :: k in m ==> Defaulted(formals, m)[k] == m[k]
    decreases |formals|
  {
    if formals != [] {
      DefaultedKeys(formals[..|formals| - 1], m);
      NamesSnoc(formals, |formals| - 1);
      assert formals[..|formals|] == formals;
    }
  }

  /** A formal not bound before the default pass gets its default. */
  lemma {:induction false} DefaultedDefaults(formals: seq<FormalArgument>, m: Bound, i: nat)
    requires DistinctNames(formals) && i < |formals| && formals[i].name !in m
    ensures formals[i].name in Defaulted(formals, m) && Defaulted(formals, m)[formals[i].name] == formals[i].dflt
    decreases |formals|
  {
    var front := formals[..|formals| - 1];
    DefaultedKeys(front, m);
    if i < |front| {
      assert DistinctNames(front) by {
        forall a, b | 0 <= a < b < |front| ensures front[a].name != front[b].name {
          assert front[a] == formals[a] && front[b] == formals[b];
        }
      }
      assert front[i] == formals[i];
      DefaultedDefaults(front, m, i);
    } else {
      assert formals[i].name !in Names(front) by {
        forall g | g in front ensures g.name != formals[i].name {
          var a :| 0 <= a < |front| && front[a] == g;
          assert front[a] == formals[a];
        }
      }
    }
  }

  /**
   * result() succeeds exactly when every key bound before and every formal
   * without a binding has a non-null value; a failure names a null key.
   */
  lemma ResultOutcome(formals: seq<FormalArgument>, m: Bound, r: Result<map<string, string>, Failure>)
    requires DistinctNames(formals)
    requires Checked(Defaulted(formals, m), r)
    ensures r.Ok? <==> (forall k :: k in m ==> m[k].Some?)
                       && forall i :: 0 <= i < |formals| && formals[i].name !in m ==> formals[i].dflt.Some?
    ensures r.Ok? ==> r.value.Keys == m.Keys + Names(formals)
    ensures r.Err? ==> r.error.MandatoryMissing? && r.error.name in Defaulted(formals, m)
  {
    DefaultedKeys(formals, m);
    var d := Defaulted(formals, m);
    if AllBound(d) {
      forall i | 0 <= i < |formals| && formals[i].name !in m ensures formals[i].dflt.Some? {
        DefaultedDefaults(formals, m, i);
      }
    } else {
      var k :| k in d && d[k].None?;
      if k !in m {
        var i :| 0 <= i < |formals| && formals[i].name == k;
        DefaultedDefaults(formals, m, i);
      }
    }
  }
}
