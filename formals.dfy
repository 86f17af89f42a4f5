/**
 * Formal build arguments as the Dockerfile declares them, and the "available build arguments"
 * listing that every binder appends to its unknown-argument message.  The listing is the same
 * private helper in four source files (see README).
 */
module Formals {
  import opened Wrappers
  import opened Text
  import opened Failures

  /** `ARG name` (dflt None: mandatory) or `ARG name=dflt`. */
  datatype FormalArgument = FormalArgument(name: string, dflt: Option<string>)

  /** The formals are the values of a map keyed by name, listed in its iteration order. */
  predicate DistinctNames(formals: seq<FormalArgument>) {
    forall i, j :: 0 <= i < j < |formals| ==> formals[i].name != formals[j].name
  }

  function Names(formals: seq<FormalArgument>): set<string> {
    set f | f in formals :: f.name
  }

  lemma NamesSnoc(formals: seq<FormalArgument>, i: nat)
    requires i < |formals|
    ensures Names(formals[..i + 1]) == Names(formals[..i]) + {formals[i].name}
  {
    assert formals[..i + 1] == formals[..i] + [formals[i]];
  }

  /** The names in iteration order, each preceded by a space. */
  function NameList(formals: seq<FormalArgument>): string
    decreases |formals|
  {
    if formals == [] then ""
    else NameList(formals[..|formals| - 1]) + " " + formals[|formals| - 1].name
  }

  const AvailableHead := "(available build arguments:"

  function AvailableText(formals: seq<FormalArgument>): string {
    AvailableHead + NameList(formals) + ")\n"
  }

  method Available(formals: seq<FormalArgument>) returns (r: string)
    ensures r == AvailableText(formals)
  {
    r := AvailableHead;
    for i := 0 to |formals|
      invariant r == AvailableHead + NameList(formals[..i])
    {
      r := r + " ";
      r := r + formals[i].name;
      assert formals[..i + 1][..i] == formals[..i];
    }
    assert formals[..|formals|] == formals;
    r := r + ")\n";
  }

  lemma {:induction false} NameListConcat(a: seq<FormalArgument>, b: seq<FormalArgument>)
    ensures NameList(a + b) == NameList(a) + NameList(b)
    decreases |b|
  {
    if b == [] {
      assert a + b == a;
    } else {
      var b', f := b[..|b| - 1], b[|b| - 1];
      assert a + b == (a + b') + [f] && b == b' + [f];
      assert (a + b)[..|a + b| - 1] == a + b';
      NameListConcat(a, b');
    }
  }

  /** The listing names every formal, in iteration order, after a single space. */
  lemma AvailableNamesEach(formals: seq<FormalArgument>, i: nat)
    requires i < |formals|
    ensures AvailableText(formals)
         == AvailableHead + NameList(formals[..i]) + " " + formals[i].name + NameList(formals[i + 1..]) + ")\n"
  {
    assert formals == (formals[..i] + [formals[i]]) + formals[i + 1..];
    NameListConcat(formals[..i] + [formals[i]], formals[i + 1..]);
    NameListConcat(formals[..i], [formals[i]]);
    assert NameList([formals[i]]) == " " + formals[i].name by {
      assert [formals[i]][..0] == [];
    }
  }

  // ---------------------------------------------------------------- artifact arguments

  const ArtifactPrefix := "artifact"

  predicate IsArtifact(name: string) {
    StartsWith(name, ArtifactPrefix)
  }

  /**
   * The file an `artifact<Type>` argument names: the artifact's base name, a dot, and the
   * lower-cased suffix after "artifact" (`artifactWar` of `app-1.0` is `app-1.0.war`).
   */
  function ArtifactFile(baseName: string, formalName: string): string
    requires IsArtifact(formalName)
  {
    baseName + "." + LowerAscii(formalName[|ArtifactPrefix|..])
  }

  /**
   * An artifact argument's value: the artifact file's name, provided that file exists in
   * `directory` (`existing` holds the names of the files there).
   */
  function ArtifactValue(directory: string, baseName: string, existing: set<string>, formalName: string)
    : Result<Option<string>, Failure>
    requires IsArtifact(formalName)
  {
    var file := ArtifactFile(baseName, formalName);
    if file in existing then Ok(Some(file)) else Err(FileNotFound(directory + "/" + file))
  }
}
