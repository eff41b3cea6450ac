/**
 The per-line image table of a TextView (`m_LineInfo` with `m_nLineInfoCount`).

 A fixed-capacity array of LINEINFO records, of which the first `count` are
 live. The window keeps the live records sorted by line number, with no line
 number twice, so that the array acts as a map from line number to image
 index: SetLineImage overwrites or appends-and-sorts, GetLineInfo
 binary-searches.
 */
module LineImages {
  import opened Wrappers

  /** A ULONG: an unsigned 32-bit integer. */
  newtype ULong = x: int | 0 <= x < 0x1_0000_0000

  /** One LINEINFO record: a line number and the image drawn beside it. */
  datatype LineInfo = LineInfo(lineNo: ULong, imageIdx: ULong)

  /** The array `m_LineInfo`, whose capacity is `|slots|`, and the live
      count `m_nLineInfoCount`. Slots at and past `count` hold stale data. */
  datatype Table = Table(slots: seq<LineInfo>, count: nat)

  /** The comparison handed to qsort and bsearch: orders records by line
      number alone, ignoring the image index. */
  function CompareLineInfo(a: LineInfo, b: LineInfo): (r: int)
    ensures r == -1 || r == 0 || r == 1
    ensures r < 0 <==> a.lineNo < b.lineNo
    ensures r == 0 <==> a.lineNo == b.lineNo
    ensures r > 0 <==> a.lineNo > b.lineNo
  {
    if a.lineNo < b.lineNo then -1
    else if a.lineNo > b.lineNo then 1
    else 0
  }

  /** The comparison is a consistent total preorder, as qsort and bsearch
      require of it: antisymmetric in sign, and transitive. */
  lemma CompareIsPreorder(a: LineInfo, b: LineInfo, c: LineInfo)
    ensures CompareLineInfo(a, b) == -CompareLineInfo(b, a)
    ensures CompareLineInfo(a, b) <= 0 && CompareLineInfo(b, c) <= 0 ==> CompareLineInfo(a, c) <= 0
  {
  }

  /** Sorted in the order CompareLineInfo defines. */
  predicate SortedByLine(s: seq<LineInfo>)
  {
    forall i, j :: 0 <= i < j < |s| ==> CompareLineInfo(s[i], s[j]) <= 0
  }

  /** No line number occurs twice. */
  predicate DistinctLines(s: seq<LineInfo>)
  {
    forall i, j :: 0 <= i < j < |s| ==> s[i].lineNo != s[j].lineNo
  }

  /** The line numbers that carry an image. */
  function LineSet(s: seq<LineInfo>): set<ULong>
  {
    set x | x in s :: x.lineNo
  }

  /** The live records. */
  function Live(t: Table): seq<LineInfo>
    requires t.count <= |t.slots|
  {
    t.slots[..t.count]
  }

  /** The table invariant: the live count fits the array, and the live
      records are sorted with no line number twice. */
  predicate Valid(t: Table)
  {
    t.count <= |t.slots| && SortedByLine(Live(t)) && DistinctLines(Live(t))
  }

  /** Some live record is about line `n`. */
  predicate HasLine(t: Table, n: ULong)
    requires t.count <= |t.slots|
  {
    exists i :: 0 <= i < t.count && t.slots[i].lineNo == n
  }

  /** The table as the constructor leaves it: the array is never initialised,
      so `uninitialised` stands for whatever it holds; only the live count is
      set to 0. */
  function Empty(uninitialised: seq<LineInfo>): (t: Table)
    ensures Valid(t) && |t.slots| == |uninitialised|
    ensures forall n :: !HasLine(t, n)
  {
    Table(uninitialised, 0)
  }

  // ---------------------------------------------------------------------
  // Sorting: the role of qsort
  // ---------------------------------------------------------------------

  /** Inserts `x` into a sorted sequence. */
  function Insert(x: LineInfo, s: seq<LineInfo>): (r: seq<LineInfo>)
    requires SortedByLine(s)
    ensures SortedByLine(r)
    ensures multiset(r) == multiset(s) + multiset{x}
    ensures |r| == |s| + 1 && (r[0] == x || (|s| > 0 && r[0] == s[0]))
  {
    if |s| == 0 then [x]
    else if CompareLineInfo(x, s[0]) <= 0 then [x] + s
    else
      var rest := Insert(x, s[1..]);
      assert s == [s[0]] + s[1..];
      assert SortedByLine([s[0]] + rest) by {
        assert s[0].lineNo <= rest[0].lineNo;
        forall k | 0 <= k < |rest| ensures s[0].lineNo <= rest[k].lineNo {
          if k > 0 { assert CompareLineInfo(rest[0], rest[k]) <= 0; }
        }
      }
      [s[0]] + rest
  }

  /** The sort qsort performs with CompareLineInfo. Only its contract — the
      result is sorted and is a permutation of the input — is used below,
      since that is all the C library promises. */
  function SortLines(s: seq<LineInfo>): (r: seq<LineInfo>)
    ensures SortedByLine(r)
    ensures multiset(r) == multiset(s)
  {
    if |s| == 0 then []
    else
      assert s == s[..|s| - 1] + [s[|s| - 1]];
      Insert(s[|s| - 1], SortLines(s[..|s| - 1]))
  }

  /** Appending a record adds its line number to the line set. */
  lemma LineSetSnoc(front: seq<LineInfo>, x: LineInfo)
    ensures LineSet(front + [x]) == LineSet(front) + {x.lineNo}
  {
  }

  /** Appending a record keeps line numbers distinct exactly when its line
      number is new. */
  lemma DistinctSnoc(front: seq<LineInfo>, x: LineInfo)
    ensures DistinctLines(front + [x]) <==> DistinctLines(front) && x.lineNo !in LineSet(front)
  {
    var s := front + [x];
    if x.lineNo in LineSet(front) {
      var y :| y in front && y.lineNo == x.lineNo;
      var k :| 0 <= k < |front| && front[k] == y;
      assert s[k].lineNo == s[|s| - 1].lineNo;
    } else if DistinctLines(front) {
      forall i, j | 0 <= i < j < |s| ensures s[i].lineNo != s[j].lineNo {
        assert s[i] == front[i];
        if j == |s| - 1 {
          assert s[i] in front;
        } else {
          assert s[j] == front[j];
        }
      }
    } else {
      var i, j :| 0 <= i < j < |front| && front[i].lineNo == front[j].lineNo;
      assert s[i].lineNo == s[j].lineNo;
    }
  }

  /** A sequence has distinct line numbers exactly when it has as many line
      numbers as records. */
  lemma {:induction false} DistinctIffLineSetFull(s: seq<LineInfo>)
    ensures |LineSet(s)| <= |s|
    ensures DistinctLines(s) <==> |LineSet(s)| == |s|
  {
    if |s| == 0 {
      assert LineSet(s) == {};
    } else {
      var front, x := s[..|s| - 1], s[|s| - 1];
      assert s == front + [x];
      DistinctIffLineSetFull(front);
      LineSetSnoc(front, x);
      DistinctSnoc(front, x);
    }
  }

  /** A permutation keeps the records, hence the line numbers, and hence
      the absence of repeated line numbers. */
  lemma PermutationKeepsLines(s: seq<LineInfo>, r: seq<LineInfo>)
    requires multiset(r) == multiset(s)
    ensures forall x :: x in r <==> x in s
    ensures LineSet(r) == LineSet(s)
    ensures DistinctLines(s) ==> DistinctLines(r)
  {
    assert forall x :: x in r <==> x in multiset(r);
    assert forall x :: x in s <==> x in multiset(s);
    assert |r| == |multiset(r)| == |multiset(s)| == |s|;
    DistinctIffLineSetFull(s);
    DistinctIffLineSetFull(r);
  }

  // ---------------------------------------------------------------------
  // The map the table stands for
  // ---------------------------------------------------------------------

  /** The line set of a non-empty sequence: its first line plus the rest. */
  lemma LineSetCons(s: seq<LineInfo>)
    requires |s| > 0
    ensures LineSet(s) == {s[0].lineNo} + LineSet(s[1..])
  {
  }

  /** Reference lookup, independent of sorting: the image of the first record
      about line `n`, scanning from the front. */
  function Lookup(s: seq<LineInfo>, n: ULong): (r: Option<ULong>)
    ensures r.Some? <==> n in LineSet(s)
    ensures r.Some? ==> LineInfo(n, r.value) in s
  {
    if |s| == 0 then None
    else
      LineSetCons(s);
      if s[0].lineNo == n then Some(s[0].imageIdx)
      else
        var r := Lookup(s[1..], n);
        assert r.Some? ==> LineInfo(n, r.value) in s[1..];
        r
  }

  /** With distinct line numbers, the lookup of a record's line yields that
      record's image. */
  lemma LookupFinds(s: seq<LineInfo>, x: LineInfo)
    requires DistinctLines(s) && x in s
    ensures Lookup(s, x.lineNo) == Some(x.imageIdx)
  {
  }

  /** Two record sequences with distinct lines that agree on every line other
      than `n`, and of which `after` holds `LineInfo(n, imageIdx)`, stand for
      maps that differ by the single update `n := imageIdx`. */
  lemma LookupAfterUpdate(before: seq<LineInfo>, after: seq<LineInfo>, n: ULong, imageIdx: ULong, m: ULong)
    requires DistinctLines(before) && DistinctLines(after)
    requires LineInfo(n, imageIdx) in after
    requires forall x: LineInfo :: x.lineNo != n ==> (x in after <==> x in before)
    requires LineSet(after) == LineSet(before) + {n}
    ensures Lookup(after, m) == if m == n then Some(imageIdx) else Lookup(before, m)
  {
  }

  // ---------------------------------------------------------------------
  // GetLineInfo: the role of bsearch
  // ---------------------------------------------------------------------

  /** Binary search of the live records for line `n`; the answer is the slot
      of the record found (a pointer into the array) or None (null). The
      search key carries image index 0, which the comparison ignores. */
  method GetLineInfo(t: Table, n: ULong) returns (r: Option<nat>)
    requires t.count <= |t.slots|
    requires SortedByLine(Live(t))
    ensures r.Some? ==> r.value < t.count && t.slots[r.value].lineNo == n
    ensures r.None? <==> !HasLine(t, n)
    // on a valid table the slot found holds the image the map gives
    ensures Valid(t) ==> Lookup(Live(t), n) == if r.Some? then Some(t.slots[r.value].imageIdx) else None
  {
    HasLineIffInLineSet(t, n);
    var key := LineInfo(n, 0);
    var lo, hi := 0, t.count;
    while lo < hi
      invariant 0 <= lo <= hi <= t.count
      invariant forall j :: 0 <= j < lo ==> t.slots[j].lineNo < n
      invariant forall j :: hi <= j < t.count ==> n < t.slots[j].lineNo
    {
      var mid := lo + (hi - lo) / 2;
      var c := CompareLineInfo(key, t.slots[mid]);
      if c < 0 {
        forall j | mid <= j < t.count ensures n < t.slots[j].lineNo {
          assert Live(t)[mid] == t.slots[mid] && Live(t)[j] == t.slots[j];
        }
        hi := mid;
      } else if c > 0 {
        forall j | 0 <= j <= mid ensures t.slots[j].lineNo < n {
          assert Live(t)[mid] == t.slots[mid] && Live(t)[j] == t.slots[j];
        }
        lo := mid + 1;
      } else {
        assert Live(t)[mid] == t.slots[mid];
        if Valid(t) {
          LookupFinds(Live(t), t.slots[mid]);
        }
        return Some(mid);
      }
    }
    return None;
  }

  /** GetLineInfo on a valid table: the record found is the only live record
      about line `n`. */
  lemma FoundIsUnique(t: Table, n: ULong, k: nat)
    requires Valid(t)
    requires k < t.count && t.slots[k].lineNo == n
    ensures forall j :: 0 <= j < t.count && t.slots[j].lineNo == n ==> j == k
  {
  }

  // ---------------------------------------------------------------------
  // SetLineImage
  // ---------------------------------------------------------------------

  /** Overwriting the image of record `k` keeps the invariant and the line
      numbers, and keeps every record of another line. */
  lemma OverwriteKeeps(s: seq<LineInfo>, k: nat, imageIdx: ULong)
    requires k < |s| && SortedByLine(s) && DistinctLines(s)
    ensures var s' := s[k := LineInfo(s[k].lineNo, imageIdx)];
      && SortedByLine(s') && DistinctLines(s')
      && LineSet(s') == LineSet(s)
      && forall x: LineInfo :: x.lineNo != s[k].lineNo ==> (x in s' <==> x in s)
  {
    var n := s[k].lineNo;
    var s' := s[k := LineInfo(n, imageIdx)];
    forall x: LineInfo | x.lineNo != n ensures x in s' <==> x in s {
      if x in s' {
        var j :| 0 <= j < |s'| && s'[j] == x;
        assert s[j] == x;
      }
      if x in s {
        var j :| 0 <= j < |s| && s[j] == x;
        assert s'[j] == x;
      }
    }
    forall v | v in LineSet(s') ensures v in LineSet(s) {
      var x :| x in s' && x.lineNo == v;
      var j :| 0 <= j < |s'| && s'[j] == x;
      assert s[j] in s && s[j].lineNo == v;
    }
    forall v | v in LineSet(s) ensures v in LineSet(s') {
      var x :| x in s && x.lineNo == v;
      var j :| 0 <= j < |s| && s[j] == x;
      assert s'[j] in s' && s'[j].lineNo == v;
    }
  }

  /** Any sorted permutation of the live records plus one record of a new
      line keeps the invariant, adds that line, and keeps every other record. */
  lemma AppendSortedKeeps(live: seq<LineInfo>, y: LineInfo, sorted: seq<LineInfo>)
    requires DistinctLines(live) && y.lineNo !in LineSet(live)
    requires SortedByLine(sorted) && multiset(sorted) == multiset(live + [y])
    ensures DistinctLines(sorted)
    ensures |sorted| == |live| + 1
    ensures y in sorted
    ensures LineSet(sorted) == LineSet(live) + {y.lineNo}
    ensures forall x: LineInfo :: x.lineNo != y.lineNo ==> (x in sorted <==> x in live)
  {
    DistinctSnoc(live, y);
    LineSetSnoc(live, y);
    PermutationKeepsLines(live + [y], sorted);
    assert |sorted| == |multiset(sorted)| == |live + [y]|;
  }

  /** A line is present exactly when it is in the line set of the live records. */
  lemma HasLineIffInLineSet(t: Table, n: ULong)
    requires t.count <= |t.slots|
    ensures HasLine(t, n) <==> n in LineSet(Live(t))
  {
  }

  /** Records `imageIdx` as the image of line `n`: overwrites the image of an
      existing record, or appends a record and re-sorts the live records.
      Appending needs a free slot; the C code does not check for one. */
  method SetLineImage(t: Table, n: ULong, imageIdx: ULong) returns (r: int, t': Table)
    requires Valid(t)
    requires HasLine(t, n) || t.count < |t.slots|
    ensures r == 0
    ensures Valid(t') && |t'.slots| == |t.slots|
    ensures t'.count == if HasLine(t, n) then t.count else t.count + 1
    // the line now carries the new image
    ensures LineInfo(n, imageIdx) in Live(t')
    // the records of every other line are exactly those before
    ensures forall x: LineInfo :: x.lineNo != n ==> (x in Live(t') <==> x in Live(t))
    ensures LineSet(Live(t')) == LineSet(Live(t)) + {n}
    // as a map from line to image, the table takes the single update n := imageIdx
    ensures forall m: ULong :: Lookup(Live(t'), m) == if m == n then Some(imageIdx) else Lookup(Live(t), m)
    // slots past the live records are untouched
    ensures t'.slots[t'.count..] == t.slots[t'.count..]
  {
    HasLineIffInLineSet(t, n);
    var found := GetLineInfo(t, n);
    if found.Some? {
      var k := found.value;
      t' := t.(slots := t.slots[k := LineInfo(n, imageIdx)]);
      assert Live(t')[k] == LineInfo(n, imageIdx);
      assert Live(t') == Live(t)[k := LineInfo(Live(t)[k].lineNo, imageIdx)];
      OverwriteKeeps(Live(t), k, imageIdx);
    } else {
      var m := t.count + 1;
      var appended := t.slots[t.count := LineInfo(n, imageIdx)];
      assert appended[..m] == Live(t) + [LineInfo(n, imageIdx)];
      var sorted := SortLines(appended[..m]);
      t' := Table(sorted + appended[m..], m);
      assert Live(t') == sorted;
      AppendSortedKeeps(Live(t), LineInfo(n, imageIdx), sorted);
    }
    forall m: ULong ensures Lookup(Live(t'), m) == if m == n then Some(imageIdx) else Lookup(Live(t), m) {
      LookupAfterUpdate(Live(t), Live(t'), n, imageIdx, m);
    }
    r := 0;
  }

  /** SetLineImage followed by GetLineInfo of the same line finds the record
      with the image just set. */
  method SetThenGet(t: Table, n: ULong, imageIdx: ULong) returns (found: Option<LineInfo>)
    requires Valid(t)
    requires HasLine(t, n) || t.count < |t.slots|
    ensures found == Some(LineInfo(n, imageIdx))
  {
    var _, t' := SetLineImage(t, n, imageIdx);
    var slot := GetLineInfo(t', n);
    assert HasLine(t', n) by {
      var j :| 0 <= j < |Live(t')| && Live(t')[j] == LineInfo(n, imageIdx);
      assert t'.slots[j] == LineInfo(n, imageIdx);
    }
    var k := slot.value;
    var j :| 0 <= j < |Live(t')| && Live(t')[j] == LineInfo(n, imageIdx);
    assert t'.slots[j] == LineInfo(n, imageIdx);
    FoundIsUnique(t', n, k);
    found := Some(t'.slots[k]);
  }
}
