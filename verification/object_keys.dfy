/** The order of `Object.keys(o)` for an object filled by assignment: the
    keys that are array indices come first, in ascending numeric order, and
    the other string keys follow in the order they were added (the
    OrdinaryOwnPropertyKeys algorithm, section 10.1.11.1 of ECMAScript
    2020). */
module ObjectKeys {
  import opened Records
  import opened Sorting

  predicate IsDigit(c: char) {
    '0' <= c <= '9'
  }

  /** The decimal value of a string of digits; 0 for anything else. */
  function DigitsValue(s: string): nat {
    if |s| == 0 || !IsDigit(s[|s| - 1]) then 0
    else DigitsValue(s[..|s| - 1]) * 10 + (s[|s| - 1] as int - '0' as int)
  }

  /** The largest array index plus one: 2^32 - 1. */
  const IndexLimit: nat := 0xFFFF_FFFF

  /** A key that is an array index: the canonical decimal form (digits, no
      leading zero) of a number below 2^32 - 1. */
  predicate ArrayIndex(s: string) {
    && |s| > 0
    && (forall i :: 0 <= i < |s| ==> IsDigit(s[i]))
    && (s[0] != '0' || |s| == 1)
    && DigitsValue(s) < IndexLimit
  }

  function IndexFn(): string -> bool {
    (s: string) => ArrayIndex(s)
  }

  function NotIndexFn(): string -> bool {
    (s: string) => !ArrayIndex(s)
  }

  function IndexValueFn(): string -> int {
    (s: string) => DigitsValue(s)
  }

  /** The names a plain object inherits from `Object.prototype`: each reads
      as a function, or for `__proto__` as the prototype itself, so
      `o[name]` is truthy before anything was assigned to it. */
  const InheritedNames: seq<string> := [
    "constructor", "__defineGetter__", "__defineSetter__", "hasOwnProperty",
    "__lookupGetter__", "__lookupSetter__", "isPrototypeOf",
    "propertyIsEnumerable", "toString", "valueOf", "__proto__",
    "toLocaleString"]

  /** `s` is one of the first `n` inherited names. */
  predicate InheritedAmong(s: string, n: nat)
    requires n <= |InheritedNames|
  {
    n > 0 && (InheritedNames[n - 1] == s || InheritedAmong(s, n - 1))
  }

  predicate Inherited(s: string) {
    InheritedAmong(s, |InheritedNames|)
  }

  /** "constructor" and "__proto__" are inherited; a subject's name such
      as "Math" is not. */
  lemma InheritedExamples()
    ensures Inherited("constructor") && Inherited("__proto__") && !Inherited("Math")
  {
    InheritedListed("constructor");
    InheritedListed("__proto__");
    InheritedListed("Math");
    assert InheritedNames[0] == "constructor" && InheritedNames[10] == "__proto__";
  }

  /** A name is inherited exactly when it is one of the list. */
  lemma InheritedListed(s: string)
    ensures Inherited(s) <==> s in InheritedNames
  {
    AmongPrefix(s, |InheritedNames|);
    assert InheritedNames[..|InheritedNames|] == InheritedNames;
  }

  lemma {:induction false} AmongPrefix(s: string, n: nat)
    requires n <= |InheritedNames|
    ensures InheritedAmong(s, n) <==> s in InheritedNames[..n]
  {
    if n > 0 {
      AmongPrefix(s, n - 1);
      assert InheritedNames[..n] == InheritedNames[..n - 1] + [InheritedNames[n - 1]];
    }
  }

  function OwnFn(): string -> bool {
    (s: string) => !Inherited(s)
  }

  /** The own keys that `if (!o[k]) o[k] = …` creates on a plain object for
      the names `ks` in turn: each name once, in the order of its first
      occurrence, except the inherited names, whose test finds the
      prototype's member and creates nothing. */
  function Created(ks: seq<string>): (r: seq<string>)
    ensures Distinct(r)
    ensures forall i :: 0 <= i < |r| ==> r[i] in ks && !Inherited(r[i])
    ensures forall i :: 0 <= i < |ks| && !Inherited(ks[i]) ==> ks[i] in r
  {
    var own := Filter(ks, OwnFn());
    forall i | 0 <= i < |ks| && !Inherited(ks[i]) ensures ks[i] in Dedup(own) {
      var j := FilterTarget(ks, OwnFn(), i);
    }
    forall i | 0 <= i < |Dedup(own)| ensures Dedup(own)[i] in ks {
      var j :| 0 <= j < |own| && own[j] == Dedup(own)[i];
      var k := FilterSource(ks, OwnFn(), j);
    }
    Dedup(own)
  }

  /** A name is created exactly when it is given and not inherited. */
  lemma CreatedMembership(ks: seq<string>, s: string)
    ensures s in Created(ks) <==> s in ks && !Inherited(s)
  {
    if s in ks && !Inherited(s) {
      var i :| 0 <= i < |ks| && ks[i] == s;
    }
  }

  /** Without inherited names, the created keys are the names without
      repeats. */
  lemma CreatedWithoutInherited(ks: seq<string>)
    requires forall i :: 0 <= i < |ks| ==> !Inherited(ks[i])
    ensures Created(ks) == Dedup(ks)
  {
    FilterAll(ks, OwnFn());
  }

  /** `Object.keys` of an object whose keys were added in the order of
      `names`. */
  function Keys(names: seq<string>): (r: seq<string>)
    ensures multiset(r) == multiset(names)
    // array indices first, ascending
    ensures forall i, j :: 0 <= i < j < |r| && ArrayIndex(r[j]) ==> ArrayIndex(r[i])
    ensures forall i, j :: 0 <= i < j < |r| && ArrayIndex(r[j]) ==> DigitsValue(r[i]) <= DigitsValue(r[j])
    // then the other keys in the order they were added
    ensures var rest := Filter(names, NotIndexFn());
      |rest| <= |r| && r[|r| - |rest|..] == rest
  {
    var idx := SortAsc(Filter(names, IndexFn()), IndexValueFn());
    var rest := Filter(names, NotIndexFn());
    FilterPartition(names, IndexFn(), NotIndexFn());
    SortedIndices(names);
    NotIndices(names);
    Concatenated(idx, rest);
    idx + rest
  }

  /** The sorted part holds array indices only. */
  lemma SortedIndices(names: seq<string>)
    ensures var idx := SortAsc(Filter(names, IndexFn()), IndexValueFn());
      forall i :: 0 <= i < |idx| ==> ArrayIndex(idx[i])
  {
    var f := Filter(names, IndexFn());
    var idx := SortAsc(f, IndexValueFn());
    forall i | 0 <= i < |idx| ensures ArrayIndex(idx[i]) {
      assert idx[i] in multiset(idx);
      assert idx[i] in multiset(f);
      var j :| 0 <= j < |f| && f[j] == idx[i];
      assert IndexFn()(f[j]);
    }
  }

  /** The rest holds no array index. */
  lemma NotIndices(names: seq<string>)
    ensures var rest := Filter(names, NotIndexFn());
      forall i :: 0 <= i < |rest| ==> !ArrayIndex(rest[i])
  {
    var rest := Filter(names, NotIndexFn());
    forall i | 0 <= i < |rest| ensures !ArrayIndex(rest[i]) {
      assert NotIndexFn()(rest[i]);
    }
  }

  /** Array indices in ascending order followed by other keys. */
  lemma Concatenated(idx: seq<string>, rest: seq<string>)
    requires forall i :: 0 <= i < |idx| ==> ArrayIndex(idx[i])
    requires forall i, j :: 0 <= i < j < |idx| ==> DigitsValue(idx[i]) <= DigitsValue(idx[j])
    requires forall i :: 0 <= i < |rest| ==> !ArrayIndex(rest[i])
    ensures var r := idx + rest;
      && (forall i, j :: 0 <= i < j < |r| && ArrayIndex(r[j]) ==> ArrayIndex(r[i]))
      && (forall i, j :: 0 <= i < j < |r| && ArrayIndex(r[j]) ==> DigitsValue(r[i]) <= DigitsValue(r[j]))
      && r[|r| - |rest|..] == rest
  {
    var r := idx + rest;
    forall i, j | 0 <= i < j < |r| && ArrayIndex(r[j])
      ensures ArrayIndex(r[i]) && DigitsValue(r[i]) <= DigitsValue(r[j])
    {
      assert j < |idx|;
    }
    assert r[|r| - |rest|..] == rest;
  }

  /** Every element lands in exactly one of two complementary filters. */
  lemma {:induction false} FilterPartition<T>(xs: seq<T>, p: T -> bool, q: T -> bool)
    requires forall x :: q(x) <==> !p(x)
    ensures multiset(Filter(xs, p)) + multiset(Filter(xs, q)) == multiset(xs)
  {
    if |xs| > 0 {
      var init, last := xs[..|xs| - 1], xs[|xs| - 1];
      FilterPartition(init, p, q);
      assert xs == init + [last];
      FilterSnoc(init, last, p);
      FilterSnoc(init, last, q);
    }
  }

  /** The keys are the names, each as often as it was given. */
  lemma KeysMembership(names: seq<string>, s: string)
    ensures s in Keys(names) <==> s in names
  {
    assert s in Keys(names) <==> s in multiset(Keys(names));
    assert s in names <==> s in multiset(names);
  }

  /** Distinct names give distinct keys. */
  lemma KeysDistinct(names: seq<string>)
    requires Distinct(names)
    ensures Distinct(Keys(names))
  {
    PermutationKeepsDistinct(names, Keys(names));
  }

  /** Without array indices among them, the keys keep the order the names
      were added in. */
  lemma KeysWithoutIndices(names: seq<string>)
    requires forall i :: 0 <= i < |names| ==> !ArrayIndex(names[i])
    ensures Keys(names) == names
  {
    FilterAll(names, NotIndexFn());
    FilterNone(names, IndexFn());
    assert |SortAsc(Filter(names, IndexFn()), IndexValueFn())| == 0;
  }

  /** Keys created from a list without array indices come out in the
      order they were created. */
  lemma CreatedWithoutIndices(names: seq<string>)
    requires forall i :: 0 <= i < |names| ==> !ArrayIndex(names[i])
    ensures Keys(Created(names)) == Created(names)
  {
    var d := Created(names);
    forall k | 0 <= k < |d| ensures !ArrayIndex(d[k]) {
      var i :| 0 <= i < |names| && names[i] == d[k];
      assert !ArrayIndex(names[i]);
    }
    KeysWithoutIndices(d);
  }

  /** Names that are neither array indices nor inherited become keys in
      the order of their first occurrence. */
  lemma PlainKeysInFirstOccurrence(names: seq<string>)
    requires forall i :: 0 <= i < |names| ==> !ArrayIndex(names[i]) && !Inherited(names[i])
    ensures Keys(Created(names)) == Dedup(names)
  {
    CreatedWithoutIndices(names);
    CreatedWithoutInherited(names);
  }

  /** A condition every element satisfies keeps the whole list. */
  lemma {:induction false} FilterAll<T>(xs: seq<T>, p: T -> bool)
    requires forall i :: 0 <= i < |xs| ==> p(xs[i])
    ensures Filter(xs, p) == xs
  {
    if |xs| > 0 {
      var init := xs[..|xs| - 1];
      assert forall i :: 0 <= i < |init| ==> init[i] == xs[i];
      FilterAll(init, p);
    }
  }
}
