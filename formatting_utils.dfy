/** The formatting and hashing helpers of the logging library: the boost-style
    hash fold, the enum helpers generated by K2_DEF_ENUM (name table, FromStr,
    stream output), and the fmt formatters for `std::optional` and
    `std::set<bool>`. Values are rendered as strings; the fmt output buffer is
    the returned string. */
module FormattingUtils {
  import opened Wrappers

  // ---------------------------------------------------------------------------
  // hash_combine
  // ---------------------------------------------------------------------------

  /** The additive constant of the boost-style combine step. */
  const HashMagic: bv64 := 0x9e3779b9

  /** One combine step on a 64-bit `size_t` seed: bit-vector arithmetic wraps
      modulo 2^64 exactly as unsigned C++ arithmetic does. */
  function CombineStep(seed: bv64, h: bv64): bv64 {
    seed ^ (h + HashMagic + (seed << 6) + (seed >> 2))
  }

  /** The seed that `hash_combine_seed` leaves behind after folding the hashes
      of `args` into `seed`, first argument first. `hash` stands for
      `std::hash<T>`, whose internals are not modelled. */
  function CombineAll<T>(hash: T -> bv64, seed: bv64, args: seq<T>): bv64
    decreases |args|
  {
    if args == [] then seed else CombineAll(hash, CombineStep(seed, hash(args[0])), args[1..])
  }

  /** `hash_combine_seed(seed, args...)`: the by-reference seed becomes the
      returned value; one step per argument, left to right. */
  method HashCombineSeed<T>(hash: T -> bv64, seed: bv64, args: seq<T>) returns (out: bv64)
    ensures out == CombineAll(hash, seed, args)
    ensures args == [] ==> out == seed
  {
    out := seed;
    var i := 0;
    while i < |args|
      invariant 0 <= i <= |args|
      invariant CombineAll(hash, seed, args) == CombineAll(hash, out, args[i..])
    {
      assert args[i..][1..] == args[i + 1..];
      out := CombineStep(out, hash(args[i]));
      i := i + 1;
    }
    assert args[i..] == [];
  }

  /** `hash_combine(v, rest...)`: the fold starts from seed 0. */
  method HashCombine<T>(hash: T -> bv64, v: T, rest: seq<T>) returns (r: bv64)
    ensures r == CombineAll(hash, 0, [v] + rest)
    ensures rest == [] ==> r == hash(v) + HashMagic
  {
    r := HashCombineSeed(hash, 0, [v] + rest);
    if rest == [] {
      SingleArgumentHash(hash, v);
    }
  }

  /** Hashing one value from seed 0 gives its hash plus the magic constant. */
  lemma SingleArgumentHash<T>(hash: T -> bv64, v: T)
    ensures CombineAll(hash, 0, [v]) == hash(v) + HashMagic
  {
    assert [v][1..] == [];
  }

  /** Folding a concatenation is folding the second part over the seed
      produced by the first: the fold is a left fold. */
  lemma {:induction false} CombineAllAppend<T>(hash: T -> bv64, seed: bv64, a: seq<T>, b: seq<T>)
    ensures CombineAll(hash, seed, a + b) == CombineAll(hash, CombineAll(hash, seed, a), b)
    decreases |a|
  {
    if a == [] {
      assert a + b == b;
    } else {
      assert (a + b)[0] == a[0];
      assert (a + b)[1..] == a[1..] + b;
      CombineAllAppend(hash, CombineStep(seed, hash(a[0])), a[1..], b);
    }
  }

  /** The argument order matters: two hashes 0 and 1 combine differently
      depending on which comes first. */
  lemma ArgumentOrderMatters()
    ensures CombineAll((x: bv64) => x, 0, [0, 1]) != CombineAll((x: bv64) => x, 0, [1, 0])
  {
    var id := (x: bv64) => x;
    assert [0 as bv64, 1][1..] == [1];
    assert [1 as bv64, 0][1..] == [0];
    assert CombineAll(id, 0, [0, 1]) == CombineStep(CombineStep(0, 0), 1);
    assert CombineAll(id, 0, [1, 0]) == CombineStep(CombineStep(0, 1), 0);
  }

  // ---------------------------------------------------------------------------
  // K2_DEF_ENUM helpers, generic in the enum's table of names
  // ---------------------------------------------------------------------------

  /** No name occurs twice in the table (true of every enum, whose names are
      its C++ identifiers). */
  ghost predicate DistinctNames(names: seq<string>) {
    forall i, j :: 0 <= i < j < |names| ==> names[i] != names[j]
  }

  /** The position of the first entry equal to `s`. */
  function IndexOf(names: seq<string>, s: string): (r: Option<nat>)
    ensures r.Some? ==> r.value < |names| && names[r.value] == s
    ensures r.Some? ==> forall k :: 0 <= k < r.value ==> names[k] != s
    ensures r.None? <==> s !in names
    decreases |names|
  {
    if names == [] then None
    else if names[0] == s then Some(0)
    else match IndexOf(names[1..], s)
      case None => None
      case Some(k) => Some(k + 1)
  }

  /** The `runtime_error` text that `FromStr` throws for an unknown string. */
  function UnsupportedValue(s: string, enumName: string): string {
    "unsupported value:" + s + " in enum " + enumName
  }

  /** `<Enum>FromStr(str)`: the ordinal whose name is `str`, or the runtime
      error it throws for any other string. Recognition is modelled as an
      exact match against the name table. */
  function EnumFromStr(names: seq<string>, enumName: string, s: string): (r: Result<nat, string>)
    ensures r.Ok? ==> r.value < |names| && names[r.value] == s
    ensures r.Err? <==> s !in names
    ensures r.Err? ==> r.error == UnsupportedValue(s, enumName)
  {
    match IndexOf(names, s)
    case Some(i) => Ok(i)
    case None => Err(UnsupportedValue(s, enumName))
  }

  /** With distinct names, parsing a name gives back its own ordinal. */
  lemma FromStrRoundTrip(names: seq<string>, enumName: string, i: nat)
    requires DistinctNames(names)
    requires i < |names|
    ensures EnumFromStr(names, enumName, names[i]) == Ok(i)
  {
    var r := IndexOf(names, names[i]);
    assert r.Some? && names[r.value] == names[i];
  }

  /** `operator<<` of a K2_DEF_ENUM enum: the name of `ordinal` in braces. */
  function EnumToString(names: seq<string>, ordinal: nat): (r: string)
    requires ordinal < |names|
    ensures |r| == |names[ordinal]| + 2
    ensures r[0] == '{' && r[|r| - 1] == '}'
    ensures r[1..|r| - 1] == names[ordinal]
  {
    "{" + names[ordinal] + "}"
  }

  /** Printing is injective on a table of distinct names, and parsing the
      text between the braces gives the value back. */
  lemma EnumToStringInjective(names: seq<string>, enumName: string, i: nat, j: nat)
    requires DistinctNames(names)
    requires i < |names| && j < |names|
    ensures EnumToString(names, i) == EnumToString(names, j) <==> i == j
    ensures var p := EnumToString(names, i); EnumFromStr(names, enumName, p[1..|p| - 1]) == Ok(i)
  {
    FromStrRoundTrip(names, enumName, i);
    if EnumToString(names, i) == EnumToString(names, j) {
      var p := EnumToString(names, i);
      assert names[i] == p[1..|p| - 1] == names[j];
    }
  }

  // ---------------------------------------------------------------------------
  // joinable: a range is printed as its elements separated by ", "
  // ---------------------------------------------------------------------------

  /** `fmt::join(parts, sep)`: the parts with `sep` between neighbours. */
  function Join(parts: seq<string>, sep: string): string
    decreases |parts|
  {
    if |parts| == 0 then ""
    else if |parts| == 1 then parts[0]
    else parts[0] + sep + Join(parts[1..], sep)
  }

  /** Appending a part adds one separator and the part itself. */
  lemma {:induction false} JoinSnoc(parts: seq<string>, sep: string, p: string)
    requires parts != []
    ensures Join(parts + [p], sep) == Join(parts, sep) + sep + p
    decreases |parts|
  {
    if |parts| == 1 {
      assert (parts + [p])[1..] == [p];
    } else {
      assert (parts + [p])[1..] == parts[1..] + [p];
      JoinSnoc(parts[1..], sep, p);
    }
  }

  // ---------------------------------------------------------------------------
  // fmt::formatter<std::optional<T>>
  // ---------------------------------------------------------------------------

  /** An optional is printed in braces: the formatted value when present,
      nothing when empty. `o` holds the already formatted value. */
  function FormatOptional(o: Option<string>): (r: string)
    ensures |r| >= 2 && r[0] == '{' && r[|r| - 1] == '}'
    ensures r[1..|r| - 1] == (if o.Some? then o.value else "")
    ensures o.None? ==> r == "{}"
  {
    "{" + (if o.Some? then o.value else "") + "}"
  }

  /** The output does not tell an empty optional from one holding a value
      that formats as the empty string. */
  lemma OptionalEmptyIsAmbiguous()
    ensures FormatOptional(None) == FormatOptional(Some(""))
  {
  }

  // ---------------------------------------------------------------------------
  // fmt::formatter<std::set<bool>>
  // ---------------------------------------------------------------------------

  /** How fmt prints a bool. */
  function BoolToString(b: bool): string {
    if b then "true" else "false"
  }

  /** The iteration order of a `std::set<bool>`: ascending, false first. */
  function SortedBools(s: set<bool>): (r: seq<bool>)
    ensures forall b :: b in r <==> b in s
    ensures |r| <= 2
    ensures |r| == 2 ==> r == [false, true]
  {
    (if false in s then [false] else []) + (if true in s then [true] else [])
  }

  /** The iteration visits every element once. */
  lemma SortedBoolsSize(s: set<bool>)
    ensures |SortedBools(s)| == |s|
  {
    var r := SortedBools(s);
    assert forall b :: b in s <==> b in r;
    if false in s && true in s {
      assert forall b :: b in s <==> b in {false, true};
      assert s == {false, true};
    } else if false in s {
      assert forall b :: b in s <==> b in {false};
      assert s == {false};
    } else if true in s {
      assert forall b :: b in s <==> b in {true};
      assert s == {true};
    } else {
      assert forall b :: b !in s;
      assert s == {};
    }
  }

  /** What one iteration writes for element `e`: the element alone when the
      counter says it is the last, otherwise the element and ", ". A `size` of
      0 stands for `size() - 1` wrapping around, which no counter reaches. */
  function BoolItem(e: bool, processed: nat, size: nat): string {
    if processed == size - 1 then BoolToString(e) else BoolToString(e) + ", "
  }

  /** What the loop writes over `elems` when the counter starts at
      `processed` and, if `counting`, goes up by one per element. */
  function BoolItems(elems: seq<bool>, size: nat, processed: nat, counting: bool): string
    decreases |elems|
  {
    if elems == [] then ""
    else BoolItem(elems[0], processed, size)
         + BoolItems(elems[1..], size, if counting then processed + 1 else processed, counting)
  }

  /** The formatter as written: `processed` is never incremented. */
  function BoolSetAsWritten(s: set<bool>): string {
    "{" + BoolItems(SortedBools(s), |s|, 0, false) + "}"
  }

  /** The formatter as intended: the elements joined by ", " in braces. */
  function BoolSetIntended(s: set<bool>): string {
    "{" + Join(MapBools(SortedBools(s)), ", ") + "}"
  }

  function MapBools(bs: seq<bool>): (r: seq<string>)
    ensures |r| == |bs|
    ensures forall i :: 0 <= i < |bs| ==> r[i] == BoolToString(bs[i])
  {
    seq(|bs|, i requires 0 <= i < |bs| => BoolToString(bs[i]))
  }

  /** The loop of the formatter over the elements in iteration order: each
      element is written with or without ", " as `BoolItem` says, and the
      counter goes up after each element only when `counting`. */
  method WriteBoolItems(elems: seq<bool>, size: nat, counting: bool) returns (out: string)
    ensures out == BoolItems(elems, size, 0, counting)
  {
    var processed := 0;
    out := "";
    var i := 0;
    while i < |elems|
      invariant 0 <= i <= |elems|
      invariant processed == if counting then i else 0
      invariant out + BoolItems(elems[i..], size, processed, counting) == BoolItems(elems, size, 0, counting)
    {
      var item := BoolItem(elems[i], processed, size);
      var next := if counting then processed + 1 else processed;
      ItemsStep(elems, i, size, processed, counting);
      AppendAssoc(out, item, BoolItems(elems[i + 1..], size, next, counting));
      out := out + item;
      processed := next;
      i := i + 1;
    }
    assert elems[i..] == [];
  }

  /** The loop from element `i` on writes element `i`, then the rest. */
  lemma ItemsStep(elems: seq<bool>, i: nat, size: nat, processed: nat, counting: bool)
    requires i < |elems|
    ensures BoolItems(elems[i..], size, processed, counting)
      == BoolItem(elems[i], processed, size)
         + BoolItems(elems[i + 1..], size, if counting then processed + 1 else processed, counting)
  {
    assert elems[i..][1..] == elems[i + 1..];
  }

  lemma AppendAssoc(a: string, b: string, c: string)
    ensures a + (b + c) == (a + b) + c
  {
  }

  /** The formatter as written: `processed` is never incremented. */
  method FormatBoolSet(s: set<bool>) returns (out: string)
    ensures out == BoolSetAsWritten(s)
  {
    var items := WriteBoolItems(SortedBools(s), |s|, false);
    out := "{" + items + "}";
  }

  /** The same loop with the counter incremented after each element. */
  method FormatBoolSetCorrected(s: set<bool>) returns (out: string)
    ensures out == BoolSetIntended(s)
  {
    var elems := SortedBools(s);
    SortedBoolsSize(s);
    var items := WriteBoolItems(elems, |s|, true);
    if elems != [] {
      CountingItemsJoin(elems, 0);
    } else {
      assert MapBools(elems) == [];
    }
    out := "{" + items + "}";
  }

  /** With the counter advancing, the loop started `k` elements in writes
      the remaining elements joined by ", ": the last one alone, every other
      with its separator. */
  lemma {:induction false} CountingItemsJoin(elems: seq<bool>, k: nat)
    requires elems != []
    ensures BoolItems(elems, k + |elems|, k, true) == Join(MapBools(elems), ", ")
    decreases |elems|
  {
    var b := BoolToString(elems[0]);
    if |elems| == 1 {
      assert elems[1..] == [];
      assert MapBools(elems) == [b];
    } else {
      CountingItemsJoin(elems[1..], k + 1);
      assert MapBools(elems)[1..] == MapBools(elems[1..]);
    }
  }

  /** The output is always wrapped in braces. */
  lemma BoolSetBraces(s: set<bool>)
    ensures var r := BoolSetAsWritten(s); |r| >= 2 && r[0] == '{' && r[|r| - 1] == '}'
  {
  }

  /** On the empty and the one-element sets the formatter as written and
      the intended one print the same text. */
  lemma BoolSetSmallSetsAgree(s: set<bool>)
    requires |s| <= 1
    ensures BoolSetAsWritten(s) == BoolSetIntended(s)
  {
    SortedBoolsSize(s);
    var e := SortedBools(s);
    if |s| == 0 {
      assert e == [];
      assert MapBools(e) == [];
    } else {
      assert e[1..] == [];
      assert MapBools(e) == [BoolToString(e[0])];
      assert BoolItems(e, 1, 0, false) == BoolToString(e[0]);
    }
  }

  /** The two-element set as written: a trailing separator before the brace. */
  lemma BoolSetTwoAsWritten()
    ensures BoolSetAsWritten({false, true}) == "{false, true, }"
  {
    var s: set<bool> := {false, true};
    SortedBoolsSize(s);
    assert SortedBools(s) == [false, true];
    TwoItemsAsWritten();
  }

  lemma TwoItemsAsWritten()
    ensures BoolItems([false, true], 2, 0, false) == "false, true, "
  {
    var e := [false, true];
    assert e[1..] == [true];
    assert e[1..][1..] == [];
    assert BoolItem(false, 0, 2) == "false, ";
    assert BoolItem(true, 0, 2) == "true, ";
    assert BoolItems(e[1..], 2, 0, false) == "true, ";
  }

  /** The two-element set as intended: no trailing separator. */
  lemma BoolSetTwoIntended()
    ensures BoolSetIntended({false, true}) == "{false, true}"
  {
    var e := SortedBools({false, true});
    assert e == [false, true];
    assert MapBools(e) == ["false", "true"];
    assert MapBools(e)[1..] == ["true"];
    assert Join(MapBools(e), ", ") == "false" + ", " + "true";
  }

  /** The corrected output never ends in a separator before the brace. */
  lemma BoolSetIntendedNoTrailingSeparator(s: set<bool>)
    ensures var r := BoolSetIntended(s); |r| >= 3 ==> r[|r| - 3..] != ", }"
  {
    var parts := MapBools(SortedBools(s));
    var j := Join(parts, ", ");
    var r := BoolSetIntended(s);
    assert r == "{" + j + "}";
    if parts != [] {
      var last := parts[|parts| - 1];
      JoinEndsWithLast(parts, ", ");
      assert last[|last| - 1] == 'e';
      assert r[|r| - 2] == j[|j| - 1] == last[|last| - 1];
    } else {
      assert r == "{}";
    }
  }

  /** A join ends with its last part. */
  lemma {:induction false} JoinEndsWithLast(parts: seq<string>, sep: string)
    requires parts != []
    ensures var j := Join(parts, sep); var last := parts[|parts| - 1];
      |last| <= |j| && j[|j| - |last|..] == last
    decreases |parts|
  {
    if |parts| > 1 {
      JoinEndsWithLast(parts[1..], sep);
      var rest := Join(parts[1..], sep);
      var j := Join(parts, sep);
      assert j == parts[0] + sep + rest;
      assert j[|j| - |rest|..] == rest;
    }
  }
}
