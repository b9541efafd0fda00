/**
 * The small language helpers of src/lang.ts: `classNames`, which keeps the
 * truthy class names and joins them with spaces, and `capitalize`.
 */
module Lang {
  import opened JsStrings

  /** One argument of `classNames`: a string, `undefined`, `null` or `false`. */
  datatype ClassArg = Name(name: string) | Undefined | Null | False

  /** `Boolean(arg)`: only a non-empty string is truthy. */
  predicate IsTruthy(arg: ClassArg) {
    arg.Name? && arg.name != ""
  }

  /** `classes.filter(Boolean)`, as the strings that remain. */
  function KeptNames(classes: seq<ClassArg>): (names: seq<string>)
    ensures |names| <= |classes|
    ensures forall k :: 0 <= k < |names| ==> names[k] != ""
    ensures names == [] <==> forall i :: 0 <= i < |classes| ==> !IsTruthy(classes[i])
  {
    if classes == [] then []
    else (if IsTruthy(classes[0]) then [classes[0].name] else []) + KeptNames(classes[1..])
  }

  /** `classNames(...classes)` */
  function ClassNames(classes: seq<ClassArg>): string {
    Join(KeptNames(classes), " ")
  }

  /** Filtering works piece by piece: the kept names of a concatenation, in order. */
  lemma {:induction false} KeptNamesConcat(xs: seq<ClassArg>, ys: seq<ClassArg>)
    ensures KeptNames(xs + ys) == KeptNames(xs) + KeptNames(ys)
    decreases |xs|
  {
    if xs == [] {
      assert xs + ys == ys;
    } else {
      assert (xs + ys)[0] == xs[0] && (xs + ys)[1..] == xs[1..] + ys;
      KeptNamesConcat(xs[1..], ys);
    }
  }

  /** A falsy argument (`undefined`, `null`, `false` or `""`) anywhere leaves the result unchanged. */
  lemma ClassNamesIgnoresFalsy(xs: seq<ClassArg>, arg: ClassArg, ys: seq<ClassArg>)
    requires !IsTruthy(arg)
    ensures ClassNames(xs + [arg] + ys) == ClassNames(xs + ys)
  {
    KeptNamesConcat(xs + [arg], ys);
    KeptNamesConcat(xs, [arg]);
    KeptNamesConcat(xs, ys);
    assert KeptNames([arg]) == [];
    assert KeptNames(xs) + [] == KeptNames(xs);
  }

  /** The names of two argument lists, in their order, separated by exactly one space. */
  lemma ClassNamesAppend(xs: seq<ClassArg>, ys: seq<ClassArg>)
    requires KeptNames(xs) != [] && KeptNames(ys) != []
    ensures ClassNames(xs + ys) == ClassNames(xs) + " " + ClassNames(ys)
  {
    var a, b := KeptNames(xs), KeptNames(ys);
    KeptNamesConcat(xs, ys);
    JoinCut(a + b, |a|, " ");
    assert (a + b)[..|a|] == a && (a + b)[|a|..] == b;
  }

  /**
   * When at least one name is kept and none holds a space, splitting the
   * result at spaces gives back exactly the kept names, in order.
   */
  lemma ClassNamesSplit(classes: seq<ClassArg>)
    requires KeptNames(classes) != []
    requires forall i :: 0 <= i < |classes| && classes[i].Name? ==> ' ' !in classes[i].name
    ensures Split(ClassNames(classes), ' ') == KeptNames(classes)
  {
    KeptNamesHaveNoSpace(classes);
    SplitJoin(KeptNames(classes), ' ');
  }

  lemma {:induction false} KeptNamesHaveNoSpace(classes: seq<ClassArg>)
    requires forall i :: 0 <= i < |classes| && classes[i].Name? ==> ' ' !in classes[i].name
    ensures forall k :: 0 <= k < |KeptNames(classes)| ==> ' ' !in KeptNames(classes)[k]
    decreases |classes|
  {
    if classes != [] {
      KeptNamesHaveNoSpace(classes[1..]);
    }
  }

  /** `classNames()` is empty and `classNames(x)` is `x` for a non-empty `x`. */
  lemma ClassNamesSmallCases(x: string)
    requires x != ""
    ensures ClassNames([]) == ""
    ensures ClassNames([Name(x)]) == x
  {
    assert [Name(x)][1..] == [];
  }

  /** `capitalize(s)`: the first character upper-cased, the rest unchanged. */
  function Capitalize(s: string): (r: string)
    ensures |r| == |s|
    ensures s != "" ==> r[0] == ToUpperChar(s[0])
    ensures forall i :: 1 <= i < |s| ==> r[i] == s[i]
  {
    ToUpper(Substring(s, 0, 1)) + SubstringFrom(s, 1)
  }

  /** Capitalizing twice is capitalizing once. */
  lemma CapitalizeIdempotent(s: string)
    ensures Capitalize(Capitalize(s)) == Capitalize(s)
  {
    var r := Capitalize(s);
    var rr := Capitalize(r);
    if s != "" {
      assert rr[0] == ToUpperChar(ToUpperChar(s[0])) == ToUpperChar(s[0]);
    }
    assert forall i :: 0 <= i < |rr| ==> rr[i] == r[i];
  }

  lemma CapitalizeExamples()
    ensures Capitalize("") == ""
    ensures Capitalize("hello") == "Hello"
  {
    assert Capitalize("hello")[0] == 'H';
    assert Capitalize("hello")[1..] == "ello";
  }
}
