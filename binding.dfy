/**
 * The two passes every binder shares after it has computed the initial values: explicit
 * overrides replace bound values (an unknown name fails), and the mandatory check refuses a
 * value that is still null.  A bound value is Option<string>, None standing for Java's null.
 */
module Binding {
  import opened Wrappers
  import opened Failures
  import opened Formals

  type Bound = map<string, Option<string>>

  /** How a binder computes the initial value of one formal; a failure aborts the binding. */
  type Initial = FormalArgument -> Result<Option<string>, Failure>

  /**
   * The first pass of every binder: each formal, in iteration order, is bound to its initial
   * value; the first formal whose value fails aborts the pass.
   */
  function Bind(formals: seq<FormalArgument>, initial: Initial): Result<Bound, Failure>
    decreases |formals|
  {
    if formals == [] then Ok(map[])
    else
      var before :- Bind(formals[..|formals| - 1], initial);
      var f := formals[|formals| - 1];
      var v :- initial(f);
      Ok(before[f.name := v])
  }

  method BindFormals(formals: seq<FormalArgument>, initial: Initial) returns (r: Result<Bound, Failure>)
    ensures r == Bind(formals, initial)
  {
    var result := map[];
    for i := 0 to |formals|
      invariant Bind(formals[..i], initial) == Ok(result)
    {
      assert formals[..i + 1][..i] == formals[..i];
      var v := initial(formals[i]);
      if v.Err? {
        BindErrSticks(formals, i + 1, initial);
        return Err(v.error);
      }
      result := result[formals[i].name := v.value];
    }
    assert formals[..|formals|] == formals;
    return Ok(result);
  }

  lemma {:induction false} BindErrSticks(formals: seq<FormalArgument>, i: nat, initial: Initial)
    requires i <= |formals|
    requires Bind(formals[..i], initial).Err?
    ensures Bind(formals, initial) == Bind(formals[..i], initial)
    decreases |formals| - i
  {
    if i < |formals| {
      assert formals[..i + 1][..i] == formals[..i];
      BindErrSticks(formals, i + 1, initial);
    } else {
      assert formals[..i] == formals;
    }
  }

  /** The first pass succeeds exactly when every formal's initial value does. */
  lemma {:induction false} BindSucceeds(formals: seq<FormalArgument>, initial: Initial)
    ensures Bind(formals, initial).Ok? <==> forall i :: 0 <= i < |formals| ==> initial(formals[i]).Ok?
    decreases |formals|
  {
    if formals != [] {
      var front := formals[..|formals| - 1];
      BindSucceeds(front, initial);
      assert forall i :: 0 <= i < |front| ==> front[i] == formals[i];
    }
  }

  /** After a successful first pass the key set is the formal names. */
  lemma {:induction false} BindKeys(formals: seq<FormalArgument>, initial: Initial)
    requires Bind(formals, initial).Ok?
    ensures Bind(formals, initial).value.Keys == Names(formals)
    decreases |formals|
  {
    if formals != [] {
      var n := |formals| - 1;
      var front, f := formals[..n], formals[n];
      assert Bind(front, initial).Ok?;
      var before := Bind(front, initial).value;
      assert Bind(formals, initial).value == before[f.name := initial(f).value];
      BindKeys(front, initial);
      NamesSnoc(formals, n);
      assert formals[..n + 1] == formals;
    }
  }

  /** After a successful first pass each formal is bound to its own initial value. */
  lemma {:induction false} BindValues(formals: seq<FormalArgument>, initial: Initial)
    requires DistinctNames(formals)
    requires Bind(formals, initial).Ok?
    ensures forall i :: 0 <= i < |formals| ==>
              formals[i].name in Bind(formals, initial).value &&
              initial(formals[i]) == Ok(Bind(formals, initial).value[formals[i].name])
    decreases |formals|
  {
    if formals != [] {
      var n := |formals| - 1;
      var front, f := formals[..n], formals[n];
      assert Bind(front, initial).Ok?;
      var before := Bind(front, initial).value;
      var m := Bind(formals, initial).value;
      assert m == before[f.name := initial(f).value];
      assert DistinctNames(front);
      BindValues(front, initial);
      forall i | 0 <= i < |formals|
        ensures formals[i].name in m && initial(formals[i]) == Ok(m[formals[i].name])
      {
        if i < n {
          assert front[i] == formals[i];
          assert formals[i].name != f.name;
        }
      }
    }
  }

  /** The failure is that of the first formal, in iteration order, whose value fails. */
  lemma {:induction false} BindFirstFailure(formals: seq<FormalArgument>, initial: Initial, j: nat)
    requires j < |formals| && initial(formals[j]).Err?
    requires forall i :: 0 <= i < j ==> initial(formals[i]).Ok?
    ensures Bind(formals, initial) == Err(initial(formals[j]).error)
    decreases |formals|
  {
    var front := formals[..|formals| - 1];
    if j == |formals| - 1 {
      BindSucceeds(front, initial);
      assert forall i :: 0 <= i < |front| ==> front[i] == formals[i];
    } else {
      assert forall i :: 0 <= i <= j ==> front[i] == formals[i];
      BindFirstFailure(front, initial, j);
    }
  }

  /** The explicit arguments in the iteration order of their map. */
  type Overrides = seq<(string, string)>

  /**
   * The override pass of Arguments.buildArgs, Build.buildArgs and Source.buildArgs: each entry
   * must name a key already bound, and replaces its value; the first unknown name fails with
   * the message `unknown` makes of it.
   */
  function Overridden(m: Bound, overrides: Overrides, unknown: string -> Failure): Result<Bound, Failure>
    decreases |overrides|
  {
    if overrides == [] then Ok(m)
    else
      var before :- Overridden(m, overrides[..|overrides| - 1], unknown);
      var entry := overrides[|overrides| - 1];
      if entry.0 !in before then Err(unknown(entry.0))
      else Ok(before[entry.0 := Some(entry.1)])
  }

  /** The value `name` ends up with: its last override, else `current`. */
  function Overriding(overrides: Overrides, name: string, current: Option<string>): Option<string>
    decreases |overrides|
  {
    if overrides == [] then current
    else if overrides[|overrides| - 1].0 == name then Some(overrides[|overrides| - 1].1)
    else Overriding(overrides[..|overrides| - 1], name, current)
  }

  method ApplyOverrides(m: Bound, overrides: Overrides, unknown: string -> Failure) returns (r: Result<Bound, Failure>)
    ensures r == Overridden(m, overrides, unknown)
  {
    var result := m;
    for i := 0 to |overrides|
      invariant Overridden(m, overrides[..i], unknown) == Ok(result)
    {
      var (name, value) := overrides[i];
      assert overrides[..i + 1][..i] == overrides[..i];
      if name !in result {
        assert Overridden(m, overrides[..i + 1], unknown) == Err(unknown(name));
        OverriddenErrSticks(m, overrides, i + 1, unknown);
        return Err(unknown(name));
      }
      result := result[name := Some(value)];
    }
    assert overrides[..|overrides|] == overrides;
    return Ok(result);
  }

  /** Once an override failed, later entries do not change the failure. */
  lemma {:induction false} OverriddenErrSticks(m: Bound, overrides: Overrides, i: nat, unknown: string -> Failure)
    requires i <= |overrides|
    requires Overridden(m, overrides[..i], unknown).Err?
    ensures Overridden(m, overrides, unknown) == Overridden(m, overrides[..i], unknown)
    decreases |overrides| - i
  {
    if i < |overrides| {
      assert overrides[..i + 1][..i] == overrides[..i];
      OverriddenErrSticks(m, overrides, i + 1, unknown);
    } else {
      assert overrides[..i] == overrides;
    }
  }

  /**
   * The override pass succeeds exactly when every name is already bound; it then keeps the key
   * set and binds each key to its last override, or leaves it as it was.
   */
  lemma {:induction false} OverriddenValues(m: Bound, overrides: Overrides, unknown: string -> Failure)
    ensures Overridden(m, overrides, unknown).Ok? <==>
              forall j :: 0 <= j < |overrides| ==> overrides[j].0 in m
    ensures Overridden(m, overrides, unknown).Ok? ==>
              Overridden(m, overrides, unknown).value.Keys == m.Keys &&
              forall k :: k in m ==> Overridden(m, overrides, unknown).value[k] == Overriding(overrides, k, m[k])
    decreases |overrides|
  {
    if overrides != [] {
      var front := overrides[..|overrides| - 1];
      OverriddenValues(m, front, unknown);
      assert forall j :: 0 <= j < |front| ==> front[j] == overrides[j];
    }
  }

  /** The failure names the first unknown entry in iteration order. */
  lemma {:induction false} OverriddenFirstUnknown(m: Bound, overrides: Overrides, unknown: string -> Failure, j: nat)
    requires j < |overrides| && overrides[j].0 !in m
    requires forall i :: 0 <= i < j ==> overrides[i].0 in m
    ensures Overridden(m, overrides, unknown) == Err(unknown(overrides[j].0))
    decreases |overrides|
  {
    var front := overrides[..|overrides| - 1];
    if j == |overrides| - 1 {
      OverriddenValues(m, front, unknown);
      assert forall i :: 0 <= i < |front| ==> front[i] == overrides[i];
    } else {
      assert forall i :: 0 <= i <= j ==> front[i] == overrides[i];
      OverriddenFirstUnknown(m, front, unknown, j);
    }
  }

  /** A failed first pass reports the failure of one of the initial values. */
  lemma {:induction false} BindFailureFrom(formals: seq<FormalArgument>, initial: Initial)
    requires Bind(formals, initial).Err?
    ensures exists i :: 0 <= i < |formals| && initial(formals[i]) == Err(Bind(formals, initial).error)
    decreases |formals|
  {
    var n := |formals| - 1;
    var front := formals[..n];
    if Bind(front, initial).Err? {
      BindFailureFrom(front, initial);
      var i :| 0 <= i < |front| && initial(front[i]) == Err(Bind(front, initial).error);
      assert front[i] == formals[i];
    } else {
      assert initial(formals[n]) == Err(Bind(formals, initial).error);
    }
  }

  /** A failed override pass reports the unknown-name failure of one of the entries. */
  lemma {:induction false} OverriddenFailureFrom(m: Bound, overrides: Overrides, unknown: string -> Failure)
    requires Overridden(m, overrides, unknown).Err?
    ensures exists j :: 0 <= j < |overrides| && Overridden(m, overrides, unknown).error == unknown(overrides[j].0)
    decreases |overrides|
  {
    var n := |overrides| - 1;
    var front := overrides[..n];
    if Overridden(m, front, unknown).Err? {
      OverriddenFailureFrom(m, front, unknown);
      var j :| 0 <= j < |front| && Overridden(m, front, unknown).error == unknown(front[j].0);
      assert front[j] == overrides[j];
    } else {
      assert Overridden(m, overrides, unknown).error == unknown(overrides[n].0);
    }
  }

  /** Both passes: the initial binding, then the overrides. */
  function BindAndOverride(formals: seq<FormalArgument>, initial: Initial, overrides: Overrides, unknown: string -> Failure)
    : Result<Bound, Failure>
  {
    var m :- Bind(formals, initial);
    Overridden(m, overrides, unknown)
  }

  /**
   * Both passes succeed exactly when every initial value does and every override names a formal;
   * each formal then ends up with its last override, else its initial value.
   */
  lemma BindAndOverrideValues(formals: seq<FormalArgument>, initial: Initial, overrides: Overrides, unknown: string -> Failure)
    requires DistinctNames(formals)
    ensures BindAndOverride(formals, initial, overrides, unknown).Ok? <==>
              (forall i :: 0 <= i < |formals| ==> initial(formals[i]).Ok?) &&
              (forall j :: 0 <= j < |overrides| ==> overrides[j].0 in Names(formals))
    ensures BindAndOverride(formals, initial, overrides, unknown).Ok? ==>
              var m := BindAndOverride(formals, initial, overrides, unknown).value;
              m.Keys == Names(formals) &&
              forall i :: 0 <= i < |formals| ==>
                m[formals[i].name] == Overriding(overrides, formals[i].name, initial(formals[i]).value)
  {
    BindSucceeds(formals, initial);
    if Bind(formals, initial).Ok? {
      BindKeys(formals, initial);
      BindValues(formals, initial);
      OverriddenValues(Bind(formals, initial).value, overrides, unknown);
    }
  }

  method BindAll(formals: seq<FormalArgument>, initial: Initial, overrides: Overrides, unknown: string -> Failure)
    returns (r: Result<Bound, Failure>)
    ensures r == BindAndOverride(formals, initial, overrides, unknown)
  {
    var bound := BindFormals(formals, initial);
    if bound.Err? {
      return Err(bound.error);
    }
    r := ApplyOverrides(bound.value, overrides, unknown);
  }

  /** A failure of both passes is that of an initial value or of an unknown override. */
  lemma BindAndOverrideFailure(formals: seq<FormalArgument>, initial: Initial, overrides: Overrides, unknown: string -> Failure)
    requires BindAndOverride(formals, initial, overrides, unknown).Err?
    ensures var e := BindAndOverride(formals, initial, overrides, unknown).error;
            (exists i :: 0 <= i < |formals| && initial(formals[i]) == Err(e)) ||
            (exists j :: 0 <= j < |overrides| && e == unknown(overrides[j].0))
  {
    if Bind(formals, initial).Err? {
      BindFailureFrom(formals, initial);
    } else {
      OverriddenFailureFrom(Bind(formals, initial).value, overrides, unknown);
    }
  }

  /**
   * When every initial value succeeds, both passes fail exactly on the first override, in
   * iteration order, that names no formal.
   */
  lemma BindAndOverrideFirstUnknown(formals: seq<FormalArgument>, initial: Initial, overrides: Overrides,
                                    unknown: string -> Failure, j: nat)
    requires forall i :: 0 <= i < |formals| ==> initial(formals[i]).Ok?
    requires j < |overrides| && overrides[j].0 !in Names(formals)
    requires forall i :: 0 <= i < j ==> overrides[i].0 in Names(formals)
    ensures BindAndOverride(formals, initial, overrides, unknown) == Err(unknown(overrides[j].0))
  {
    BindSucceeds(formals, initial);
    BindKeys(formals, initial);
    OverriddenFirstUnknown(Bind(formals, initial).value, overrides, unknown, j);
  }

  predicate AllBound(m: Bound) {
    forall k :: k in m ==> m[k].Some?
  }

  /**
   * The mandatory check: with every value bound the map is returned, otherwise it fails naming a
   * key whose value is null.  The source walks the entries in hash order, so which null key is
   * named is not determined.
   */
  predicate Checked(m: Bound, r: Result<map<string, string>, Failure>) {
    if AllBound(m) then r == Ok(map k | k in m :: m[k].value)
    else r.Err? && r.error.MandatoryMissing? && r.error.name in m && m[r.error.name].None?
  }

  method CheckMandatory(m: Bound) returns (r: Result<map<string, string>, Failure>)
    ensures Checked(m, r)
  {
    var todo := m.Keys;
    while todo != {}
      invariant todo <= m.Keys
      invariant forall k :: k in m && k !in todo ==> m[k].Some?
      decreases todo
    {
      var k :| k in todo;
      if m[k].None? {
        return Err(MandatoryMissing(k));
      }
      todo := todo - {k};
    }
    return Ok(map k | k in m :: m[k].value);
  }

  /** Both passes followed by the mandatory check, as Arguments.buildArgs and Build.buildArgs do. */
  predicate CheckedOutcome(formals: seq<FormalArgument>, initial: Initial, overrides: Overrides, unknown: string -> Failure,
                           r: Result<map<string, string>, Failure>)
  {
    match BindAndOverride(formals, initial, overrides, unknown)
    case Err(e) => r == Err(e)
    case Ok(m) => Checked(m, r)
  }

  /** The value a formal ends up with: its last override, else its initial value. */
  function FinalValue(overrides: Overrides, initial: Initial, f: FormalArgument): Option<string>
    requires initial(f).Ok?
  {
    Overriding(overrides, f.name, initial(f).value)
  }

  /**
   * The checked binding succeeds exactly when every initial value does, every override names a
   * formal and every formal ends up with a value; the result then maps exactly the formal names,
   * each to its final value.  A mandatory-argument failure names a formal left without a value.
   */
  lemma CheckedOutcomeValues(formals: seq<FormalArgument>, initial: Initial, overrides: Overrides, unknown: string -> Failure,
                             r: Result<map<string, string>, Failure>)
    requires DistinctNames(formals)
    requires forall i :: 0 <= i < |formals| ==> initial(formals[i]).Err? ==> !initial(formals[i]).error.MandatoryMissing?
    requires forall name :: !unknown(name).MandatoryMissing?
    requires CheckedOutcome(formals, initial, overrides, unknown, r)
    ensures r.Ok? <==>
              (forall i :: 0 <= i < |formals| ==> initial(formals[i]).Ok?) &&
              (forall j :: 0 <= j < |overrides| ==> overrides[j].0 in Names(formals)) &&
              (forall i :: 0 <= i < |formals| ==> FinalValue(overrides, initial, formals[i]).Some?)
    ensures r.Ok? ==>
              r.value.Keys == Names(formals) &&
              forall i :: 0 <= i < |formals| ==> Some(r.value[formals[i].name]) == FinalValue(overrides, initial, formals[i])
    ensures r.Err? && r.error.MandatoryMissing? ==>
              exists i :: 0 <= i < |formals| && formals[i].name == r.error.name &&
                          initial(formals[i]).Ok? && FinalValue(overrides, initial, formals[i]).None?
  {
    BindAndOverrideValues(formals, initial, overrides, unknown);
    var b := BindAndOverride(formals, initial, overrides, unknown);
    if b.Err? {
      BindAndOverrideFailure(formals, initial, overrides, unknown);
    } else {
      var m := b.value;
      if r.Err? && r.error.MandatoryMissing? {
        var name := r.error.name;
        assert name in Names(formals);
        var f :| f in formals && f.name == name;
        var i :| 0 <= i < |formals| && formals[i] == f;
        assert FinalValue(overrides, initial, formals[i]).None?;
      }
      if AllBound(m) {
        forall i | 0 <= i < |formals| ensures FinalValue(overrides, initial, formals[i]).Some? {
          assert formals[i].name in m;
        }
      }
    }
  }
}
