/**
 * Source.java: tag arithmetic over the repository tags of the local images (`tag`, `nextTag`,
 * `repositoryTags`), the `eat` helper, and the simplest binder (defaults, then overrides; no
 * mandatory check).
 */
module SourceTags {
  import opened Wrappers
  import opened Text
  import opened Failures
  import opened Formals
  import opened Binding

  // ---------------------------------------------------------------- tag

  /** The tag of `repository:tag`: the text after the last colon; no colon is an IllegalArgumentException. */
  function Tag(repositoryTag: string): (r: Result<string, Failure>)
    ensures r.Err? <==> ':' !in repositoryTag
    ensures r.Err? ==> r.error == NoTagSeparator(repositoryTag)
    ensures r.Ok? ==> ':' !in r.value
  {
    var idx := LastIndexOf(repositoryTag, ':');
    if idx == -1 then Err(NoTagSeparator(repositoryTag))
    else
      var t := repositoryTag[idx + 1..];
      assert forall i :: 0 <= i < |t| ==> t[i] == repositoryTag[idx + 1 + i];
      Ok(t)
  }

  /** The tag is exactly the text after the last colon. */
  lemma TagAfterLastColon(repository: string, tag: string)
    requires ':' !in tag
    ensures Tag(repository + ":" + tag) == Ok(tag)
  {
    LastIndexOfSplit(repository, ':', tag);
    assert repository + ":" + tag == repository + [':'] + tag;
    assert (repository + [':'] + tag)[|repository| + 1..] == tag;
  }

  // ---------------------------------------------------------------- Integer.parseInt

  const IntMin: int := -0x8000_0000
  const IntMax: int := 0x7fff_ffff

  predicate IsDigit(c: char) { '0' <= c <= '9' }

  predicate AllDigits(s: string) {
    forall i :: 0 <= i < |s| ==> IsDigit(s[i])
  }

  function Digit(c: char): nat
    requires IsDigit(c)
  {
    c as int - '0' as int
  }

  /** The value of a string of decimal digits. */
  function DigitsValue(s: string): nat
    requires forall i :: 0 <= i < |s| ==> IsDigit(s[i])
    decreases |s|
  {
    if s == [] then 0
    else
      var last := s[|s| - 1];
      assert IsDigit(last);
      DigitsValue(s[..|s| - 1]) * 10 + Digit(last)
  }

  lemma DigitsValueSnoc(s: string, c: char)
    requires forall i :: 0 <= i < |s| ==> IsDigit(s[i])
    requires IsDigit(c)
    ensures forall i :: 0 <= i < |s + [c]| ==> IsDigit((s + [c])[i])
    ensures DigitsValue(s + [c]) == DigitsValue(s) * 10 + Digit(c)
  {
    assert (s + [c])[..|s|] == s;
  }

  /**
   * Integer.parseInt on ASCII decimal literals: an optional sign, at least one digit, and a value
   * in int range; anything else is a NumberFormatException (None).
   */
  function ParseInt(s: string): (r: Option<int>)
    ensures r.Some? ==> IntMin <= r.value <= IntMax
    ensures r.Some? ==> |s| > 0 && (IsDigit(s[0]) || s[0] == '-' || s[0] == '+')
  {
    if s == [] then None
    else
      var signed := s[0] == '-' || s[0] == '+';
      var digits := if signed then s[1..] else s;
      if digits == [] || !AllDigits(digits) then None
      else
        var v: int := if s[0] == '-' then -(DigitsValue(digits) as int) else DigitsValue(digits);
        if IntMin <= v <= IntMax then Some(v) else None
  }

  // ---------------------------------------------------------------- nextTag

  /** The number a repository tag carries: None when its tag is not an int literal. */
  function TagNumber(repositoryTag: string): Result<Option<int>, Failure> {
    var tag :- Tag(repositoryTag);
    Ok(ParseInt(tag))
  }

  lemma TagNumberSteps(repositoryTag: string)
    ensures Tag(repositoryTag).Err? ==> TagNumber(repositoryTag) == Err(Tag(repositoryTag).error)
    ensures Tag(repositoryTag).Ok? ==> TagNumber(repositoryTag) == Ok(ParseInt(Tag(repositoryTag).value))
  {
  }

  type Number = Result<Option<int>, Failure>

  /** The numbers of the repository tags, in iteration order. */
  function Numbers(repositoryTags: seq<string>): (r: seq<Number>)
    ensures |r| == |repositoryTags|
  {
    seq(|repositoryTags|, i requires 0 <= i < |repositoryTags| => TagNumber(repositoryTags[i]))
  }

  /** One step of the maximum: a larger number replaces it, anything else leaves it. */
  function Larger(max: int, number: Option<int>): int {
    if number.Some? && number.value > max then number.value else max
  }

  /** The largest number, at least 0; the first failure, if any, fails it. */
  function MaxOf(numbers: seq<Number>): (r: Result<int, Failure>)
    ensures r.Ok? ==> r.value >= 0
    decreases |numbers|
  {
    if numbers == [] then Ok(0)
    else
      var max :- MaxOf(numbers[..|numbers| - 1]);
      var number :- numbers[|numbers| - 1];
      Ok(Larger(max, number))
  }

  /** The largest tag that parses as an int, at least 0; a repository tag without a colon fails. */
  function MaxNumber(repositoryTags: seq<string>): Result<int, Failure> {
    MaxOf(Numbers(repositoryTags))
  }

  /** Java's int addition: the result wraps to 32 bits. */
  function Int32(x: int): (r: int)
    ensures IntMin <= r <= IntMax
    ensures IntMin <= x <= IntMax ==> r == x
    ensures x == IntMax + 1 ==> r == IntMin
  {
    (x - IntMin) % 0x1_0000_0000 + IntMin
  }

  /** nextTag as written: `max + 1` in int arithmetic. */
  function NextTagAsWritten(repositoryTags: seq<string>): (r: Result<int, Failure>)
    ensures r.Ok? <==> NextTagOf(repositoryTags).Ok?
    ensures r.Ok? ==> IntMin <= r.value <= IntMax
    ensures r.Ok? && NextTagOf(repositoryTags).value <= IntMax ==> r == NextTagOf(repositoryTags)
  {
    var max :- MaxNumber(repositoryTags);
    Ok(Int32(max + 1))
  }

  /** nextTag as intended: one more than the largest numeric tag, without wrap-around. */
  function NextTagOf(repositoryTags: seq<string>): Result<int, Failure> {
    var max :- MaxNumber(repositoryTags);
    Ok(max + 1)
  }

  method NextTag(repositoryTags: seq<string>) returns (r: Result<int, Failure>)
    ensures r == NextTagOf(repositoryTags)
  {
    var max := 0;
    for i := 0 to |repositoryTags|
      invariant MaxOf(Numbers(repositoryTags)[..i]) == Ok(max)
    {
      var tag := Tag(repositoryTags[i]);
      NextTagStep(repositoryTags, i, max);
      if tag.Err? {
        return Err(tag.error);
      }
      var number := ParseInt(tag.value);
      if number.Some? && number.value > max {
        max := number.value;
      }
    }
    assert Numbers(repositoryTags)[..|repositoryTags|] == Numbers(repositoryTags);
    return Ok(max + 1);
  }

  /** One round of nextTag's loop: a tag without a colon fails the whole, any other is folded in. */
  lemma NextTagStep(repositoryTags: seq<string>, i: nat, max: int)
    requires i < |repositoryTags| && MaxOf(Numbers(repositoryTags)[..i]) == Ok(max)
    ensures Tag(repositoryTags[i]).Err? ==> MaxOf(Numbers(repositoryTags)) == Err(Tag(repositoryTags[i]).error)
    ensures Tag(repositoryTags[i]).Ok? ==>
              MaxOf(Numbers(repositoryTags)[..i + 1]) == Ok(Larger(max, ParseInt(Tag(repositoryTags[i]).value)))
  {
    var numbers := Numbers(repositoryTags);
    assert numbers[i] == TagNumber(repositoryTags[i]);
    TagNumberSteps(repositoryTags[i]);
    MaxOfStep(numbers, i);
    if Tag(repositoryTags[i]).Err? {
      MaxOfErrSticks(numbers, i + 1);
    }
  }

  lemma MaxOfStep(numbers: seq<Number>, i: nat)
    requires i < |numbers|
    ensures MaxOf(numbers[..i + 1]) == (var max :- MaxOf(numbers[..i]); var number :- numbers[i]; Ok(Larger(max, number)))
  {
    assert numbers[..i + 1][..i] == numbers[..i];
  }

  lemma {:induction false} MaxOfErrSticks(numbers: seq<Number>, i: nat)
    requires i <= |numbers|
    requires MaxOf(numbers[..i]).Err?
    ensures MaxOf(numbers) == MaxOf(numbers[..i])
    decreases |numbers| - i
  {
    if i < |numbers| {
      assert numbers[..i + 1][..i] == numbers[..i];
      MaxOfErrSticks(numbers, i + 1);
    } else {
      assert numbers[..i] == numbers;
    }
  }

  lemma {:induction false} MaxOfSucceeds(numbers: seq<Number>)
    ensures MaxOf(numbers).Ok? <==> forall i :: 0 <= i < |numbers| ==> numbers[i].Ok?
    decreases |numbers|
  {
    if numbers != [] {
      var front := numbers[..|numbers| - 1];
      MaxOfSucceeds(front);
      assert forall i :: 0 <= i < |front| ==> front[i] == numbers[i];
    }
  }

  lemma {:induction false} MaxOfAbove(numbers: seq<Number>, i: nat, number: int)
    requires MaxOf(numbers).Ok?
    requires i < |numbers| && numbers[i] == Ok(Some(number))
    ensures number <= MaxOf(numbers).value
    decreases |numbers|
  {
    var n := |numbers| - 1;
    if i < n {
      assert numbers[..n][i] == numbers[i];
      MaxOfAbove(numbers[..n], i, number);
    }
  }

  lemma {:induction false} MaxOfAttained(numbers: seq<Number>)
    requires MaxOf(numbers).Ok?
    ensures MaxOf(numbers).value == 0 ||
            exists i :: 0 <= i < |numbers| && numbers[i] == Ok(Some(MaxOf(numbers).value))
    decreases |numbers|
  {
    if numbers != [] {
      var n := |numbers| - 1;
      var front := numbers[..n];
      var max := MaxOf(numbers).value;
      MaxOfAttained(front);
      if max != 0 && numbers[n] != Ok(Some(max)) {
        assert max == MaxOf(front).value;
        var i :| 0 <= i < n && front[i] == Ok(Some(max));
        assert numbers[i] == Ok(Some(max));
      }
    }
  }

  /** The number the i-th repository tag carries, if any. */
  predicate Numbered(repositoryTags: seq<string>, i: nat, number: int)
    requires i < |repositoryTags|
  {
    TagNumber(repositoryTags[i]) == Ok(Some(number))
  }

  /**
   * nextTag fails exactly when a repository tag has no colon; otherwise it exceeds every numeric
   * tag and is 1 or one more than one of them.
   */
  lemma NextTagBounds(repositoryTags: seq<string>)
    ensures NextTagOf(repositoryTags).Ok? <==> forall i :: 0 <= i < |repositoryTags| ==> ':' in repositoryTags[i]
    ensures NextTagOf(repositoryTags).Ok? ==>
              NextTagOf(repositoryTags).value >= 1 &&
              (forall i, n :: 0 <= i < |repositoryTags| && Numbered(repositoryTags, i, n) ==> n < NextTagOf(repositoryTags).value) &&
              (NextTagOf(repositoryTags).value == 1 ||
               exists i, n :: 0 <= i < |repositoryTags| && Numbered(repositoryTags, i, n) && n + 1 == NextTagOf(repositoryTags).value)
  {
    var numbers := Numbers(repositoryTags);
    MaxOfSucceeds(numbers);
    forall i | 0 <= i < |repositoryTags| ensures numbers[i].Ok? <==> ':' in repositoryTags[i] {
    }
    if MaxOf(numbers).Ok? {
      var max := MaxOf(numbers).value;
      forall i, n | 0 <= i < |repositoryTags| && Numbered(repositoryTags, i, n)
        ensures n < NextTagOf(repositoryTags).value
      {
        MaxOfAbove(numbers, i, n);
      }
      MaxOfAttained(numbers);
      if max != 0 {
        var i :| 0 <= i < |numbers| && numbers[i] == Ok(Some(max));
        assert Numbered(repositoryTags, i, max) && max + 1 == NextTagOf(repositoryTags).value;
      }
    }
  }

  /** Every number that parses is an int. */
  lemma {:induction false} MaxOfInRange(numbers: seq<Number>)
    requires forall i :: 0 <= i < |numbers| && numbers[i].Ok? && numbers[i].value.Some? ==> numbers[i].value.value <= IntMax
    requires MaxOf(numbers).Ok?
    ensures MaxOf(numbers).value <= IntMax
    decreases |numbers|
  {
    if numbers != [] {
      var front := numbers[..|numbers| - 1];
      assert forall i :: 0 <= i < |front| ==> front[i] == numbers[i];
      MaxOfInRange(front);
    }
  }

  /** The maximum stays an int, so `max + 1` can only wrap at Integer.MAX_VALUE. */
  lemma MaxNumberInRange(repositoryTags: seq<string>)
    requires MaxNumber(repositoryTags).Ok?
    ensures 0 <= MaxNumber(repositoryTags).value <= IntMax
  {
    MaxOfInRange(Numbers(repositoryTags));
  }

  lemma NextTagOfNothing()
    ensures NextTagOf([]) == Ok(1)
  {
  }

  lemma Int32InRange(x: int)
    requires IntMin <= x <= IntMax
    ensures Int32(x) == x
  {
    assert 0 <= x - IntMin < 0x1_0000_0000;
  }

  /** Below the largest int, the code as written and the intended value agree. */
  lemma NextTagAsWrittenAgrees(repositoryTags: seq<string>)
    requires MaxNumber(repositoryTags).Ok? && MaxNumber(repositoryTags).value < IntMax
    ensures NextTagAsWritten(repositoryTags) == NextTagOf(repositoryTags)
  {
    Int32InRange(MaxNumber(repositoryTags).value + 1);
  }

  /** At the largest int the code as written wraps to the smallest one. */
  lemma NextTagOverflows(repositoryTags: seq<string>)
    requires MaxNumber(repositoryTags) == Ok(IntMax)
    ensures NextTagAsWritten(repositoryTags) == Ok(IntMin)
    ensures NextTagOf(repositoryTags) == Ok(IntMax + 1)
  {
  }

  /** A tag that is Integer.MAX_VALUE exists: "app:2147483647". */
  lemma LargestTagParses()
    ensures ParseInt("2147483647") == Some(IntMax)
  {
    var s := "2";
    assert DigitsValue(s) == 2 by {
      assert s[..0] == [];
    }
    DigitsValueSnoc(s, '1');
    s := s + ['1'];
    DigitsValueSnoc(s, '4');
    s := s + ['4'];
    DigitsValueSnoc(s, '7');
    s := s + ['7'];
    DigitsValueSnoc(s, '4');
    s := s + ['4'];
    DigitsValueSnoc(s, '8');
    s := s + ['8'];
    DigitsValueSnoc(s, '3');
    s := s + ['3'];
    DigitsValueSnoc(s, '6');
    s := s + ['6'];
    DigitsValueSnoc(s, '4');
    s := s + ['4'];
    DigitsValueSnoc(s, '7');
    s := s + ['7'];
    assert DigitsValue(s) == 2147483647;
    assert s == "2147483647";
  }

  // ---------------------------------------------------------------- repositoryTags

  /** An image of the local daemon: its id and the `repository:tag` names it carries. */
  datatype ImageInfo = ImageInfo(id: string, repositoryTags: seq<string>)

  predicate Lists(images: seq<ImageInfo>, repositoryTag: string) {
    exists i :: 0 <= i < |images| && repositoryTag in images[i].repositoryTags
  }

  /**
   * repositoryTags: the repository tags of `repository`, each mapped to an image carrying it
   * (the last one in iteration order).
   */
  method RepositoryTags(repository: string, images: seq<ImageInfo>) returns (r: map<string, ImageInfo>)
    ensures forall t :: t in r <==> StartsWith(t, repository + ":") && Lists(images, t)
    ensures forall t :: t in r ==> r[t] in images && t in r[t].repositoryTags
  {
    var prefix := repository + ":";
    r := map[];
    for i := 0 to |images|
      invariant forall t :: t in r <==> StartsWith(t, prefix) && Lists(images[..i], t)
      invariant forall t :: t in r ==> r[t] in images && t in r[t].repositoryTags
    {
      var info := images[i];
      for j := 0 to |info.repositoryTags|
        invariant forall t :: t in r <==>
                    StartsWith(t, prefix) && (Lists(images[..i], t) || t in info.repositoryTags[..j])
        invariant forall t :: t in r ==> r[t] in images && t in r[t].repositoryTags
      {
        var repositoryTag := info.repositoryTags[j];
        if StartsWith(repositoryTag, prefix) {
          r := r[repositoryTag := info];
        }
        assert info.repositoryTags[..j + 1] == info.repositoryTags[..j] + [repositoryTag];
      }
      assert info.repositoryTags[..|info.repositoryTags|] == info.repositoryTags;
      assert forall t :: Lists(images[..i + 1], t) <==> Lists(images[..i], t) || t in info.repositoryTags by {
        forall t | Lists(images[..i + 1], t) ensures Lists(images[..i], t) || t in info.repositoryTags {
          var k :| 0 <= k < i + 1 && t in images[..i + 1][k].repositoryTags;
          if k < i {
            assert images[..i][k] == images[k];
          }
        }
        forall t | Lists(images[..i], t) ensures Lists(images[..i + 1], t) {
          var k :| 0 <= k < i && t in images[..i][k].repositoryTags;
          assert images[..i + 1][k] == images[k];
        }
        forall t | t in info.repositoryTags ensures Lists(images[..i + 1], t) {
          assert images[..i + 1][i] == info;
        }
      }
    }
    assert images[..|images|] == images;
  }

  /** Every repository tag repositoryTags returns has a tag, so nextTag over them cannot fail. */
  lemma NextTagOfRepositoryTags(repository: string, keys: seq<string>)
    requires forall i :: 0 <= i < |keys| ==> StartsWith(keys[i], repository + ":")
    ensures NextTagOf(keys).Ok?
  {
    forall i | 0 <= i < |keys| ensures ':' in keys[i] {
      assert keys[i][|repository|] == (repository + ":")[|repository|] == ':';
    }
    NextTagBounds(keys);
  }

  // ---------------------------------------------------------------- eat

  /** The caller's explicit arguments, which eat consumes one key at a time. */
  class ArgumentMap {
    var entries: map<string, string>

    constructor(entries: map<string, string>)
      ensures this.entries == entries
    {
      this.entries := entries;
    }

    /** Removes `key` and returns its explicit value, else `dflt`. */
    method Eat(key: string, dflt: string) returns (r: string)
      modifies this
      ensures entries == old(entries) - {key}
      ensures r == if key in old(entries) then old(entries)[key] else dflt
    {
      var explicitValue := if key in entries then Some(entries[key]) else None;
      entries := entries - {key};
      r := if explicitValue.Some? then explicitValue.value else dflt;
    }
  }

  // ---------------------------------------------------------------- buildArgs

  function Defaults(): Binding.Initial {
    (f: FormalArgument) => Ok(f.dflt)
  }

  function Unknown(available: string): string -> Failure {
    name => UnknownBuildArgument(name, available)
  }

  /** Source.buildArgs: defaults, then overrides; null values are left in place. */
  method BuildArgs(formals: seq<FormalArgument>, overrides: Overrides) returns (r: Result<Bound, Failure>)
    ensures r == BindAndOverride(formals, Defaults(), overrides, Unknown(AvailableText(formals)))
  {
    var available := Available(formals);
    r := BindAll(formals, Defaults(), overrides, Unknown(available));
  }

  /**
   * Source.buildArgs fails exactly on an override naming no formal, with the first such name;
   * otherwise its keys are the formal names, each bound to its last override or else its
   * default, which may be null.
   */
  lemma BuildArgsValues(formals: seq<FormalArgument>, overrides: Overrides)
    requires DistinctNames(formals)
    ensures var r := BindAndOverride(formals, Defaults(), overrides, Unknown(AvailableText(formals)));
            (r.Ok? <==> forall j :: 0 <= j < |overrides| ==> overrides[j].0 in Names(formals)) &&
            (r.Ok? ==> r.value.Keys == Names(formals) &&
                       forall i :: 0 <= i < |formals| ==>
                         r.value[formals[i].name] == Overriding(overrides, formals[i].name, formals[i].dflt))
    ensures forall j :: 0 <= j < |overrides| && overrides[j].0 !in Names(formals) &&
                        (forall i :: 0 <= i < j ==> overrides[i].0 in Names(formals)) ==>
              BindAndOverride(formals, Defaults(), overrides, Unknown(AvailableText(formals)))
              == Err(UnknownBuildArgument(overrides[j].0, AvailableText(formals)))
  {
    BindAndOverrideValues(formals, Defaults(), overrides, Unknown(AvailableText(formals)));
    forall j | 0 <= j < |overrides| && overrides[j].0 !in Names(formals) &&
               (forall i :: 0 <= i < j ==> overrides[i].0 in Names(formals))
      ensures BindAndOverride(formals, Defaults(), overrides, Unknown(AvailableText(formals)))
              == Err(UnknownBuildArgument(overrides[j].0, AvailableText(formals)))
    {
      BindAndOverrideFirstUnknown(formals, Defaults(), overrides, Unknown(AvailableText(formals)), j);
    }
  }
}
