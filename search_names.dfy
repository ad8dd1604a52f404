/**
 * Reconciliation of species names: CNDDB names lose any population
 * qualifier ("... pop. 2") and surrounding whitespace, and are then merged
 * into the CNPS name list without duplicates.
 */
module SearchNames {
  import opened Dedup

  /** The population qualifier that CNDDB appends to some species names. */
  const PopMarker: string := "pop. "

  /**
   * The characters Python's `str.strip()` removes: those for which
   * `str.isspace()` holds.
   */
  predicate IsSpace(c: char) {
    var n := c as int;
    n in {9, 10, 11, 12, 13, 28, 29, 30, 31, 32, 133, 160, 5760, 8232, 8233, 8239, 8287, 12288}
    || 8192 <= n <= 8202
  }

  /** The number of whitespace characters at the start of s. */
  function LeadingSpace(s: string): (n: nat)
    ensures n <= |s|
    ensures forall k :: 0 <= k < n ==> IsSpace(s[k])
    ensures n < |s| ==> !IsSpace(s[n])
  {
    if s != [] && IsSpace(s[0]) then 1 + LeadingSpace(s[1..]) else 0
  }

  /** The number of whitespace characters at the end of s. */
  function TrailingSpace(s: string): (n: nat)
    ensures n <= |s|
    ensures forall k :: |s| - n <= k < |s| ==> IsSpace(s[k])
    ensures n < |s| ==> !IsSpace(s[|s| - 1 - n])
  {
    if s != [] && IsSpace(s[|s| - 1]) then 1 + TrailingSpace(s[..|s| - 1]) else 0
  }

  /**
   * Python's `str.strip()`: s without its leading and trailing whitespace.
   * The result is the slice of s that starts at the first non-space
   * character; only whitespace follows it.
   */
  function Strip(s: string): (r: string)
    ensures LeadingSpace(s) + |r| <= |s|
    ensures r == s[LeadingSpace(s)..LeadingSpace(s) + |r|]
    ensures forall k :: LeadingSpace(s) + |r| <= k < |s| ==> IsSpace(s[k])
    ensures r != [] ==> !IsSpace(r[0]) && !IsSpace(r[|r| - 1])
  {
    var t := s[LeadingSpace(s)..];
    t[..|t| - TrailingSpace(t)]
  }

  /** Stripping a stripped string changes nothing. */
  lemma StripIdempotent(s: string)
    ensures Strip(Strip(s)) == Strip(s)
  {
  }

  predicate OccursAt(s: string, pat: string, i: nat) {
    i + |pat| <= |s| && s[i..i + |pat|] == pat
  }

  predicate Contains(s: string, pat: string) {
    exists i: nat :: i <= |s| && OccursAt(s, pat, i)
  }

  /** An occurrence inside a slice is an occurrence in the whole string, shifted by the slice start. */
  lemma OccursInSlice(s: string, pat: string, lo: nat, hi: nat, i: nat)
    requires lo <= hi <= |s|
    requires lo + i + |pat| <= hi
    ensures OccursAt(s[lo..hi], pat, i) <==> OccursAt(s, pat, lo + i)
  {
    var inSlice, inWhole := s[lo..hi][i..i + |pat|], s[lo + i..lo + i + |pat|];
    forall k | 0 <= k < |pat| ensures inSlice[k] == inWhole[k] {
    }
    assert inSlice == inWhole;
  }

  /** A slice of a string without the pattern does not contain it either. */
  lemma SliceAvoidsPattern(s: string, pat: string, lo: nat, hi: nat)
    requires lo <= hi <= |s|
    requires !Contains(s, pat)
    ensures !Contains(s[lo..hi], pat)
  {
    if Contains(s[lo..hi], pat) {
      var i: nat :| i <= hi - lo && OccursAt(s[lo..hi], pat, i);
      OccursInSlice(s, pat, lo, hi, i);
    }
  }

  /** Dropping the first character shifts every occurrence left by one. */
  lemma DropFirstShiftsOccurrences(s: string, pat: string)
    requires s != []
    ensures forall j: nat :: OccursAt(s[1..], pat, j) <==> OccursAt(s, pat, j + 1)
    ensures Contains(s, pat) && !OccursAt(s, pat, 0) ==> Contains(s[1..], pat)
    ensures Contains(s[1..], pat) ==> Contains(s, pat)
  {
    forall j: nat ensures OccursAt(s[1..], pat, j) <==> OccursAt(s, pat, j + 1) {
      if j + 1 + |pat| <= |s| {
        OccursInSlice(s, pat, 1, |s|, j);
      }
    }
    if Contains(s, pat) && !OccursAt(s, pat, 0) {
      var i: nat :| i <= |s| && OccursAt(s, pat, i);
      assert OccursAt(s[1..], pat, i - 1);
    }
    if Contains(s[1..], pat) {
      var i: nat :| i <= |s[1..]| && OccursAt(s[1..], pat, i);
      assert OccursAt(s, pat, i + 1);
    }
  }

  /**
   * `s.split(pat)[0]`: the part of s before the first occurrence of pat, or
   * all of s when pat does not occur.
   */
  function BeforeFirst(s: string, pat: string): (r: string)
    requires pat != []
    ensures r <= s
    decreases |s|
  {
    if |s| < |pat| then s
    else if s[..|pat|] == pat then []
    else [s[0]] + BeforeFirst(s[1..], pat)
  }

  /**
   * BeforeFirst stops exactly at the first occurrence: pat does not start
   * anywhere before the cut, starts at the cut when it occurs at all, and
   * nothing is cut when it does not occur.
   */
  lemma {:induction false} BeforeFirstCutsAtFirstOccurrence(s: string, pat: string)
    requires pat != []
    ensures var r := BeforeFirst(s, pat);
      && (forall j :: 0 <= j < |r| ==> !OccursAt(s, pat, j))
      && (Contains(s, pat) ==> OccursAt(s, pat, |r|))
      && (!Contains(s, pat) ==> r == s)
    decreases |s|
  {
    var r := BeforeFirst(s, pat);
    if |s| < |pat| {
      assert !Contains(s, pat);
    } else if s[..|pat|] == pat {
      assert OccursAt(s, pat, 0);
    } else {
      assert !OccursAt(s, pat, 0);
      DropFirstShiftsOccurrences(s, pat);
      BeforeFirstCutsAtFirstOccurrence(s[1..], pat);
      var r' := BeforeFirst(s[1..], pat);
      assert r == [s[0]] + r';
      forall j | 0 <= j < |r| ensures !OccursAt(s, pat, j) {
        if j > 0 {
          assert !OccursAt(s[1..], pat, j - 1);
        }
      }
      if Contains(s, pat) {
        assert OccursAt(s[1..], pat, |r'|);
      }
    }
  }

  /** Without an occurrence, nothing is cut. */
  lemma BeforeFirstWithoutPattern(s: string, pat: string)
    requires pat != []
    ensures !Contains(s, pat) ==> BeforeFirst(s, pat) == s
  {
    BeforeFirstCutsAtFirstOccurrence(s, pat);
  }

  /** Trimming a string without the pattern cannot create it. */
  lemma StripAvoidsPattern(s: string, pat: string)
    requires !Contains(s, pat)
    ensures !Contains(Strip(s), pat)
  {
    SliceAvoidsPattern(s, pat, LeadingSpace(s), LeadingSpace(s) + |Strip(s)|);
  }

  /** The prefix before the first occurrence of a pattern does not contain it. */
  lemma BeforeFirstAvoidsPattern(s: string, pat: string)
    requires pat != []
    ensures !Contains(BeforeFirst(s, pat), pat)
  {
    var r := BeforeFirst(s, pat);
    BeforeFirstCutsAtFirstOccurrence(s, pat);
    if Contains(r, pat) {
      var i: nat :| i <= |r| && OccursAt(r, pat, i);
      assert r == s[0..|r|];
      OccursInSlice(s, pat, 0, |r|, i);
    }
  }

  /**
   * A CNDDB name with its population qualifier cut off: the text before the
   * first "pop. ", with surrounding whitespace removed.
   */
  function NormalizeName(name: string): (r: string)
    ensures !Contains(r, PopMarker)
    ensures !Contains(name, PopMarker) ==> r == Strip(name)
  {
    var before := BeforeFirst(name, PopMarker);
    BeforeFirstAvoidsPattern(name, PopMarker);
    BeforeFirstWithoutPattern(name, PopMarker);
    StripAvoidsPattern(before, PopMarker);
    Strip(before)
  }

  /**
   * A name containing the marker is cut where the marker first starts, and
   * the part before it is trimmed.
   */
  lemma NormalizeCutsAtFirstMarker(name: string)
    requires Contains(name, PopMarker)
    ensures var cut := |BeforeFirst(name, PopMarker)|;
      && cut <= |name|
      && OccursAt(name, PopMarker, cut)
      && (forall j :: 0 <= j < cut ==> !OccursAt(name, PopMarker, j))
      && NormalizeName(name) == Strip(name[..cut])
  {
    BeforeFirstCutsAtFirstOccurrence(name, PopMarker);
    var before := BeforeFirst(name, PopMarker);
    assert before == name[..|before|];
  }

  /** Normalising a name twice gives the same result as normalising it once. */
  lemma NormalizeIdempotent(name: string)
    ensures NormalizeName(NormalizeName(name)) == NormalizeName(name)
  {
  }

  /** Two occurrences of "pop. " are equal or at least its length apart. */
  lemma MarkerDoesNotOverlap(s: string, m: nat, n: nat)
    requires m <= n
    requires OccursAt(s, PopMarker, m) && OccursAt(s, PopMarker, n)
    ensures m == n || n - m >= |PopMarker|
  {
    assert forall k :: 0 <= k < |PopMarker| ==> s[m + k] == PopMarker[k] by {
      forall k | 0 <= k < |PopMarker| ensures s[m + k] == PopMarker[k] {
        assert s[m..m + |PopMarker|][k] == PopMarker[k];
      }
    }
    assert s[n] == 'p' && s[n + 1] == 'o' by {
      assert s[n..n + |PopMarker|][0] == 'p' && s[n..n + |PopMarker|][1] == 'o';
    }
  }

  /**
   * A name made of a qualifier-free part, the marker and anything after it
   * normalises to that part, trimmed: "pop. " cannot overlap itself, so the
   * first occurrence is the one right after the part.
   */
  lemma NormalizeCutsQualifier(part: string, rest: string)
    requires !Contains(part, PopMarker)
    ensures NormalizeName(part + PopMarker + rest) == Strip(part)
  {
    var s := part + PopMarker + rest;
    var n := |part|;
    assert s[n..n + |PopMarker|] == PopMarker;
    assert OccursAt(s, PopMarker, n);
    BeforeFirstCutsAtFirstOccurrence(s, PopMarker);
    var r := BeforeFirst(s, PopMarker);
    var m := |r|;
    assert m <= n;
    if m + |PopMarker| <= n {
      assert part == s[0..n];
      OccursInSlice(s, PopMarker, 0, n, m);
    }
    MarkerDoesNotOverlap(s, m, n);
    assert m == n;
    assert r == part;
  }

  /** The list comprehension that normalises every CNDDB name. */
  function NormalizeAll(names: seq<string>): seq<string> {
    seq(|names|, i requires 0 <= i < |names| => NormalizeName(names[i]))
  }

  /**
   * The GBIF search list: the distinct CNPS names in their original order,
   * followed by each normalised CNDDB name that is not yet listed, in order
   * of first appearance, so that no name is listed twice.
   */
  function MergedSearchList(cnpsNames: seq<string>, cnddbNames: seq<string>): (r: seq<string>)
    ensures Unique(cnpsNames) <= r
    ensures NoDuplicates(r)
    ensures forall i :: 0 <= i < |cnddbNames| ==> NormalizeName(cnddbNames[i]) in r
    ensures forall i :: |Unique(cnpsNames)| <= i < |r| ==>
      r[i] !in cnpsNames && exists j :: 0 <= j < |cnddbNames| && r[i] == NormalizeName(cnddbNames[j])
  {
    MergeReachesEveryName(cnpsNames, cnddbNames);
    MergeAddsOnlyCnddbNames(cnpsNames, cnddbNames);
    AppendNew(Unique(cnpsNames), NormalizeAll(Unique(cnddbNames)))
  }

  /** Every normalised CNDDB name ends up in the merged list. */
  lemma MergeReachesEveryName(cnpsNames: seq<string>, cnddbNames: seq<string>)
    ensures var r := AppendNew(Unique(cnpsNames), NormalizeAll(Unique(cnddbNames)));
      forall i :: 0 <= i < |cnddbNames| ==> NormalizeName(cnddbNames[i]) in r
  {
    var u := Unique(cnddbNames);
    var extra := NormalizeAll(u);
    var r := AppendNew(Unique(cnpsNames), extra);
    forall i | 0 <= i < |cnddbNames| ensures NormalizeName(cnddbNames[i]) in r {
      var k := IndexOf(u, cnddbNames[i]);
      assert extra[k] == NormalizeName(cnddbNames[i]);
    }
  }

  /** Whatever the merge appends is a normalised CNDDB name missing from the CNPS list. */
  lemma MergeAddsOnlyCnddbNames(cnpsNames: seq<string>, cnddbNames: seq<string>)
    ensures var base := Unique(cnpsNames);
      var r := AppendNew(base, NormalizeAll(Unique(cnddbNames)));
      forall i :: |base| <= i < |r| ==>
        r[i] !in cnpsNames && exists j :: 0 <= j < |cnddbNames| && r[i] == NormalizeName(cnddbNames[j])
  {
  }

  /**
   * The loop that appends each normalised CNDDB name to the CNPS list when
   * it is not already there.
   */
  method BuildSearchList(cnpsNames: seq<string>, cnddbNames: seq<string>) returns (searchList: seq<string>)
    ensures searchList == MergedSearchList(cnpsNames, cnddbNames)
  {
    var cnddbList := NormalizeAll(Unique(cnddbNames));
    searchList := Unique(cnpsNames);
    ghost var base := searchList;
    for i := 0 to |cnddbList|
      invariant AppendNew(searchList, cnddbList[i..]) == AppendNew(base, cnddbList)
    {
      assert cnddbList[i..][1..] == cnddbList[i + 1..];
      if cnddbList[i] !in searchList {
        searchList := searchList + [cnddbList[i]];
      }
    }
    assert cnddbList[|cnddbList|..] == [];
  }
}
