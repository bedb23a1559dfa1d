/**
 * The station-name loader: from the lines of the reference file, drop every
 * line that contains '#', keep the text before the first ';' of each other
 * line, then sort the names and remove duplicates. Names are byte strings
 * ordered byte by byte, a proper prefix first, as Rust orders `String`.
 */
module Stations {

  type Byte = b: int | 0 <= b < 256

  /** A station name, or any other line of text, as UTF-8 bytes. */
  type Name = seq<Byte>

  const Hash: Byte := 0x23
  const Semicolon: Byte := 0x3b

  /** `line.contains("#")`: a comment line, wherever the marker stands. */
  function IsComment(line: Name): (comment: bool)
    ensures comment <==> exists i :: 0 <= i < |line| && line[i] == Hash
  {
    Hash in line
  }

  /** `line.split(';').next().unwrap()`: the text before the first ';', or the whole line when it has none. */
  function FirstField(line: Name): (field: Name)
    ensures field <= line
    ensures Semicolon !in field
    ensures |field| == |line| || line[|field|] == Semicolon
    decreases |line|
  {
    if line == [] || line[0] == Semicolon then [] else [line[0]] + FirstField(line[1..])
  }

  /** The names pushed by the loop over the lines, in file order. */
  function Extracted(lines: seq<Name>): (pushed: seq<Name>)
    ensures |pushed| <= |lines|
    ensures forall x :: x in pushed ==> Semicolon !in x
    decreases |lines|
  {
    if lines == [] then []
    else
      var last := lines[|lines| - 1];
      Extracted(lines[..|lines| - 1]) + if IsComment(last) then [] else [FirstField(last)]
  }

  /** A name is pushed exactly when some non-comment line starts with it as its first field. */
  lemma {:induction false} ExtractedMembers(lines: seq<Name>, x: Name)
    ensures x in Extracted(lines) <==>
      exists i :: 0 <= i < |lines| && !IsComment(lines[i]) && FirstField(lines[i]) == x
    decreases |lines|
  {
    if lines != [] {
      var init := lines[..|lines| - 1];
      ExtractedMembers(init, x);
      assert forall i :: 0 <= i < |init| ==> init[i] == lines[i];
    }
  }

  // ---------------------------------------------------------------------
  // Byte-lexicographic order

  /** `a < b` for Rust strings: compare byte by byte; a proper prefix is smaller. */
  function Below(a: Name, b: Name): (below: bool)
    ensures |a| < |b| && a == b[..|a|] ==> below
    ensures below ==> a != b
    decreases |a|
  {
    |b| > 0 && (|a| == 0 || a[0] < b[0] || (a[0] == b[0] && Below(a[1..], b[1..])))
  }

  lemma {:induction false} BelowIrreflexive(a: Name)
    ensures !Below(a, a)
    decreases |a|
  {
    if |a| > 0 {
      BelowIrreflexive(a[1..]);
    }
  }

  lemma {:induction false} BelowTransitive(a: Name, b: Name, c: Name)
    requires Below(a, b) && Below(b, c)
    ensures Below(a, c)
    decreases |a|
  {
    if |a| > 0 && a[0] == b[0] && b[0] == c[0] {
      BelowTransitive(a[1..], b[1..], c[1..]);
    }
  }

  lemma {:induction false} BelowTotal(a: Name, b: Name)
    ensures a == b || Below(a, b) || Below(b, a)
    decreases |a|
  {
    if |a| > 0 && |b| > 0 && a[0] == b[0] {
      BelowTotal(a[1..], b[1..]);
      if a[1..] == b[1..] {
        assert a == [a[0]] + a[1..] && b == [b[0]] + b[1..];
      }
    }
  }

  /** `a` is a proper prefix of `b`. */
  predicate ProperPrefix(a: Name, b: Name) {
    |a| < |b| && a == b[..|a|]
  }

  /** `a` and `b` agree before position `k` and `a` has the smaller byte there. */
  predicate DiffersFirstAt(a: Name, b: Name, k: int) {
    0 <= k < |a| && k < |b| && a[..k] == b[..k] && a[k] < b[k]
  }

  /**
   * The byte order as Rust states it: `a` sorts first when it is a proper
   * prefix of `b`, or when at the first byte where they differ `a` has the
   * smaller byte.
   */
  lemma {:induction false} BelowFirstDifference(a: Name, b: Name)
    ensures Below(a, b) <==> ProperPrefix(a, b) || exists k :: DiffersFirstAt(a, b, k)
    decreases |a|
  {
    if |a| > 0 && |b| > 0 {
      if a[0] < b[0] {
        assert DiffersFirstAt(a, b, 0);
      } else if a[0] == b[0] {
        BelowFirstDifference(a[1..], b[1..]);
        ProperPrefixStep(a, b);
        DiffersFirstAtStep(a, b);
      }
    }
  }

  /** Dropping an equal first byte keeps the proper-prefix relation. */
  lemma ProperPrefixStep(a: Name, b: Name)
    requires |a| > 0 && |b| > 0 && a[0] == b[0]
    ensures ProperPrefix(a, b) <==> ProperPrefix(a[1..], b[1..])
  {
    assert a == [a[0]] + a[1..];
    if |a| < |b| {
      assert b[..|a|] == [b[0]] + b[1..][..|a| - 1];
    }
  }

  /** Dropping an equal first byte moves the first difference one place to the left. */
  lemma DiffersFirstAtStep(a: Name, b: Name)
    requires |a| > 0 && |b| > 0 && a[0] == b[0]
    ensures (exists k :: DiffersFirstAt(a, b, k)) <==> exists k :: DiffersFirstAt(a[1..], b[1..], k)
  {
    if exists k :: DiffersFirstAt(a, b, k) {
      var k :| DiffersFirstAt(a, b, k);
      assert a[..k] == [a[0]] + a[1..][..k - 1] && b[..k] == [b[0]] + b[1..][..k - 1];
      assert DiffersFirstAt(a[1..], b[1..], k - 1);
    }
    if exists k :: DiffersFirstAt(a[1..], b[1..], k) {
      var k :| DiffersFirstAt(a[1..], b[1..], k);
      assert a[..k + 1] == [a[0]] + a[1..][..k] && b[..k + 1] == [b[0]] + b[1..][..k];
      assert DiffersFirstAt(a, b, k + 1);
    }
  }

  lemma BelowAsymmetric(a: Name, b: Name)
    requires Below(a, b)
    ensures !Below(b, a)
  {
  }

  /** Non-decreasing in byte order. */
  ghost predicate Sorted(s: seq<Name>) {
    forall i, j :: 0 <= i < j < |s| ==> !Below(s[j], s[i])
  }

  /** Strictly increasing in byte order, hence without duplicates. */
  ghost predicate StrictlySorted(s: seq<Name>) {
    forall i, j :: 0 <= i < j < |s| ==> Below(s[i], s[j])
  }

  // ---------------------------------------------------------------------
  // Sorting

  /** Insertion of one name into a sorted list, before the first name not below it. */
  function Insert(x: Name, s: seq<Name>): (r: seq<Name>)
    ensures multiset(r) == multiset(s) + multiset{x}
    ensures Sorted(s) ==> Sorted(r)
    decreases |s|
  {
    if s == [] || !Below(s[0], x) then
      InsertAtFront(x, s);
      [x] + s
    else
      var rest := Insert(x, s[1..]);
      InsertBehind(x, s, rest);
      [s[0]] + rest
  }

  lemma InsertAtFront(x: Name, s: seq<Name>)
    requires s == [] || !Below(s[0], x)
    ensures Sorted(s) ==> Sorted([x] + s)
  {
    if Sorted(s) {
      var r := [x] + s;
      forall i, j | 0 <= i < j < |r| ensures !Below(r[j], r[i]) {
        if i == 0 && j > 1 {
          if Below(r[j], x) {
            BelowTotal(s[0], s[j - 1]);
            if Below(s[0], s[j - 1]) {
              BelowTransitive(s[0], s[j - 1], x);
            }
          }
        }
      }
    }
  }

  lemma InsertBehind(x: Name, s: seq<Name>, rest: seq<Name>)
    requires s != [] && Below(s[0], x)
    requires multiset(rest) == multiset(s[1..]) + multiset{x}
    requires Sorted(s[1..]) ==> Sorted(rest)
    ensures multiset([s[0]] + rest) == multiset(s) + multiset{x}
    ensures Sorted(s) ==> Sorted([s[0]] + rest)
  {
    assert s == [s[0]] + s[1..];
    if Sorted(s) {
      var r := [s[0]] + rest;
      forall j | 1 <= j < |r| ensures !Below(r[j], s[0]) {
        assert r[j] in multiset(rest);
        if r[j] == x {
          BelowAsymmetric(s[0], x);
        } else {
          assert r[j] in multiset(s[1..]);
          var k :| 0 <= k < |s[1..]| && s[1..][k] == r[j];
          assert s[k + 1] == r[j];
        }
      }
      forall i, j | 0 <= i < j < |r| ensures !Below(r[j], r[i]) {
        if i > 0 {
          assert r[i] == rest[i - 1] && r[j] == rest[j - 1];
        }
      }
    }
  }

  /** `Vec::sort`: a sorted permutation of the pushed names. */
  method SortNames(names: seq<Name>) returns (sorted: seq<Name>)
    ensures Sorted(sorted)
    ensures multiset(sorted) == multiset(names)
  {
    sorted := [];
    for i := 0 to |names|
      invariant Sorted(sorted)
      invariant multiset(sorted) == multiset(names[..i])
    {
      assert names[..i + 1] == names[..i] + [names[i]];
      sorted := Insert(names[i], sorted);
    }
    assert names[..|names|] == names;
  }

  /** A sorted permutation is unique: the order alone fixes the result of any sort. */
  lemma {:induction false} SortedPermutationUnique(a: seq<Name>, b: seq<Name>)
    requires Sorted(a) && Sorted(b) && multiset(a) == multiset(b)
    ensures a == b
    decreases |a|
  {
    if a != [] {
      assert b != [] by { assert |multiset(b)| == |a|; }
      SortedHeadLeast(b, a[0]);
      SortedHeadLeast(a, b[0]);
      BelowTotal(a[0], b[0]);
      SortedTail(a);
      SortedTail(b);
      assert a == [a[0]] + a[1..] && b == [b[0]] + b[1..];
      assert multiset(a[1..]) == multiset(a) - multiset{a[0]};
      assert multiset(b[1..]) == multiset(b) - multiset{b[0]};
      SortedPermutationUnique(a[1..], b[1..]);
    }
  }

  lemma SortedHeadLeast(s: seq<Name>, x: Name)
    requires Sorted(s) && x in multiset(s)
    ensures s != [] && !Below(x, s[0])
  {
    var k :| 0 <= k < |s| && s[k] == x;
    if k > 0 {
      assert !Below(s[k], s[0]);
    } else {
      BelowIrreflexive(x);
    }
  }

  lemma SortedTail(s: seq<Name>)
    requires Sorted(s) && s != []
    ensures Sorted(s[1..])
  {
  }

  // ---------------------------------------------------------------------
  // Removing duplicates

  /** The list read left to right, with every name that equals the one before it dropped. */
  function Runs(s: seq<Name>): seq<Name>
    decreases |s|
  {
    if s == [] then []
    else Runs(s[..|s| - 1]) + if |s| > 1 && s[|s| - 1] == s[|s| - 2] then [] else [s[|s| - 1]]
  }

  /** Reading one more name extends the runs by that name unless it repeats the one before it. */
  lemma RunsStep(s: seq<Name>, i: nat)
    requires i < |s|
    ensures Runs(s[..i + 1]) == Runs(s[..i]) + if i > 0 && s[i] == s[i - 1] then [] else [s[i]]
  {
    assert s[..i + 1][..i] == s[..i];
  }

  /** Runs keep every name, end with the last name read, and are never longer than the input. */
  lemma {:induction false} RunsShape(s: seq<Name>)
    ensures |Runs(s)| <= |s|
    ensures s != [] ==> Runs(s) != [] && Runs(s)[|Runs(s)| - 1] == s[|s| - 1]
    ensures forall x :: x in Runs(s) <==> x in s
    decreases |s|
  {
    if s != [] {
      var init := s[..|s| - 1];
      RunsShape(init);
      assert s == init + [s[|s| - 1]];
      if |s| > 1 {
        assert s[|s| - 2] == init[|init| - 1];
      }
    }
  }

  /** No two neighbours in the runs are equal. */
  lemma {:induction false} RunsNoRepeat(s: seq<Name>)
    ensures forall k :: 0 < k < |Runs(s)| ==> Runs(s)[k - 1] != Runs(s)[k]
    decreases |s|
  {
    if s != [] {
      var init := s[..|s| - 1];
      RunsNoRepeat(init);
      RunsShape(init);
    }
  }

  /** The runs of a sorted list are strictly increasing. */
  lemma {:induction false} RunsStrict(s: seq<Name>)
    requires Sorted(s)
    ensures StrictlySorted(Runs(s))
    decreases |s|
  {
    if s != [] {
      var init := s[..|s| - 1];
      assert Sorted(init) by {
        forall i, j | 0 <= i < j < |init| ensures !Below(init[j], init[i]) {
          assert init[i] == s[i] && init[j] == s[j];
        }
      }
      RunsStrict(init);
      RunsShape(init);
      if |s| > 1 && s[|s| - 1] != s[|s| - 2] {
        BelowTotal(s[|s| - 2], s[|s| - 1]);
        StrictlySortedAppend(Runs(init), s[|s| - 1]);
      }
    }
  }

  /** `Vec::dedup`: drop every name equal to the one before it, keeping the first of each run. */
  method Dedup(names: seq<Name>) returns (unique: seq<Name>)
    ensures unique == Runs(names)
    ensures forall x :: x in unique <==> x in names
    ensures forall k :: 0 < k < |unique| ==> unique[k - 1] != unique[k]
    ensures |unique| <= |names|
    ensures Sorted(names) ==> StrictlySorted(unique)
  {
    unique := [];
    for i := 0 to |names|
      invariant unique == Runs(names[..i])
    {
      RunsStep(names, i);
      if i == 0 || names[i] != names[i - 1] {
        unique := unique + [names[i]];
      }
    }
    assert names[..|names|] == names;
    RunsShape(names);
    RunsNoRepeat(names);
    if Sorted(names) {
      RunsStrict(names);
    }
  }

  lemma StrictlySortedAppend(s: seq<Name>, x: Name)
    requires StrictlySorted(s) && s != [] && Below(s[|s| - 1], x)
    ensures StrictlySorted(s + [x])
  {
    var r := s + [x];
    forall i, j | 0 <= i < j < |r| ensures Below(r[i], r[j]) {
      if j == |s| && i < |s| - 1 {
        BelowTransitive(s[i], s[|s| - 1], x);
      }
    }
  }

  // ---------------------------------------------------------------------
  // The loader

  /** What the loader promises: strictly increasing, and exactly the first fields of the non-comment lines. */
  ghost predicate IsNameList(names: seq<Name>, lines: seq<Name>) {
    && StrictlySorted(names)
    && forall x :: x in names <==> exists i :: 0 <= i < |lines| && !IsComment(lines[i]) && FirstField(lines[i]) == x
  }

  /** `build_weather_station_name_list`, given the lines of the reference file. */
  method BuildStationNameList(lines: seq<Name>) returns (stationNames: seq<Name>)
    ensures IsNameList(stationNames, lines)
    ensures forall k :: 0 <= k < |stationNames| ==> Semicolon !in stationNames[k] && Hash !in stationNames[k]
  {
    stationNames := [];
    for i := 0 to |lines|
      invariant stationNames == Extracted(lines[..i])
    {
      assert lines[..i + 1][..i] == lines[..i];
      if !IsComment(lines[i]) {
        stationNames := stationNames + [FirstField(lines[i])];
      }
    }
    assert lines[..|lines|] == lines;
    var pushed := stationNames;
    stationNames := SortNames(stationNames);
    stationNames := Dedup(stationNames);
    forall x ensures x in stationNames <==> exists i :: 0 <= i < |lines| && !IsComment(lines[i]) && FirstField(lines[i]) == x {
      ExtractedMembers(lines, x);
      assert x in pushed <==> x in multiset(pushed);
    }
    forall k | 0 <= k < |stationNames| ensures Semicolon !in stationNames[k] && Hash !in stationNames[k] {
      var x := stationNames[k];
      assert x in stationNames;
      var i :| 0 <= i < |lines| && !IsComment(lines[i]) && FirstField(lines[i]) == x;
      FirstFieldOfNonComment(lines[i]);
    }
  }

  /** The first field is a prefix of its line, so the first field of a non-comment line holds no '#'. */
  lemma FirstFieldOfNonComment(line: Name)
    requires !IsComment(line)
    ensures Hash !in FirstField(line)
  {
  }

  /** Loading is deterministic: only one list meets the loader's promise for given lines. */
  lemma NameListUnique(a: seq<Name>, b: seq<Name>, lines: seq<Name>)
    requires IsNameList(a, lines) && IsNameList(b, lines)
    ensures a == b
  {
    StrictlySortedSameElements(a, b);
  }

  /** Two files holding the same lines, in any order and with any repetition, load the same list. */
  lemma NameListOrderFree(a: seq<Name>, b: seq<Name>, lines1: seq<Name>, lines2: seq<Name>)
    requires IsNameList(a, lines1) && IsNameList(b, lines2)
    requires forall l :: l in lines1 <==> l in lines2
    ensures a == b
  {
    forall x ensures x in a <==> x in b {
      if x in a {
        var i :| 0 <= i < |lines1| && !IsComment(lines1[i]) && FirstField(lines1[i]) == x;
        assert lines1[i] in lines2;
        var j :| 0 <= j < |lines2| && lines2[j] == lines1[i];
      }
      if x in b {
        var j :| 0 <= j < |lines2| && !IsComment(lines2[j]) && FirstField(lines2[j]) == x;
        assert lines2[j] in lines1;
        var i :| 0 <= i < |lines1| && lines1[i] == lines2[j];
      }
    }
    StrictlySortedSameElements(a, b);
  }

  lemma {:induction false} StrictlySortedSameElements(a: seq<Name>, b: seq<Name>)
    requires StrictlySorted(a) && StrictlySorted(b)
    requires forall x :: x in a <==> x in b
    ensures a == b
    decreases |a|
  {
    if b != [] {
      assert b[0] in b;
    }
    if a != [] {
      assert a[0] in a;
      assert b != [];
      assert b[0] in b;
      var i :| 0 <= i < |b| && b[i] == a[0];
      var j :| 0 <= j < |a| && a[j] == b[0];
      if a[0] != b[0] {
        assert i > 0 && j > 0;
        assert Below(b[0], b[i]) && Below(a[0], a[j]);
        BelowAsymmetric(a[0], b[0]);
        assert false;
      }
      forall x ensures x in a[1..] <==> x in b[1..] {
        if x in a[1..] {
          var k :| 0 <= k < |a[1..]| && a[1..][k] == x;
          assert a[k + 1] == x;
          BelowIrreflexive(a[0]);
          assert x in b && x != b[0];
          var m :| 0 <= m < |b| && b[m] == x;
          assert b[1..][m - 1] == x;
        }
        if x in b[1..] {
          var k :| 0 <= k < |b[1..]| && b[1..][k] == x;
          assert b[k + 1] == x;
          BelowIrreflexive(b[0]);
          assert x in a && x != a[0];
          var m :| 0 <= m < |a| && a[m] == x;
          assert a[1..][m - 1] == x;
        }
      }
      StrictlySortedSameElements(a[1..], b[1..]);
      assert a == [a[0]] + a[1..] && b == [b[0]] + b[1..];
    }
  }
}
