/** `multi_split` and `cnt_add` of `mylib66/general.py`. The separator list
    that `multi_split` sorts in place and the dictionary that `cnt_add`
    updates in place are objects whose fields the methods modify. */
module General {

  // ---------------------------------------------------------------------
  // Strings: substrings and Python's string order

  /** `sep` fits at position i and the text there is `sep`. */
  predicate MatchesAt(s: string, sep: string, i: nat) {
    i + |sep| <= |s| && s[i..i + |sep|] == sep
  }

  /** Python's `a in b` for strings: `a` occurs somewhere in `b`. */
  predicate Occurs(a: string, b: string) {
    exists k :: 0 <= k <= |b| - |a| && MatchesAt(b, a, k)
  }

  /** Python's `<` on strings: lexicographic by code point, a proper prefix
      coming first. */
  function LexLess(a: string, b: string): bool
    decreases |a|
  {
    if |a| == 0 then |b| > 0
    else if |b| == 0 then false
    else if a[0] != b[0] then a[0] < b[0]
    else LexLess(a[1..], b[1..])
  }

  predicate LexLe(a: string, b: string) {
    a == b || LexLess(a, b)
  }

  /** Any two strings are ordered one way or the other. */
  lemma {:induction false} LexTotal(a: string, b: string)
    ensures LexLe(a, b) || LexLe(b, a)
    decreases |a|
  {
    if |a| > 0 && |b| > 0 && a[0] == b[0] {
      LexTotal(a[1..], b[1..]);
      if a[1..] == b[1..] {
        assert a == [a[0]] + a[1..] && b == [b[0]] + b[1..];
      }
    }
  }

  predicate SortedStrings(s: seq<string>) {
    forall i :: 0 <= i < |s| - 1 ==> LexLe(s[i], s[i + 1])
  }

  function Insert(x: string, s: seq<string>): (r: seq<string>)
    ensures |r| == |s| + 1 && multiset(r) == multiset(s) + multiset{x}
    ensures r[0] == x || (|s| > 0 && r[0] == s[0])
    decreases |s|
  {
    if |s| == 0 then [x]
    else if LexLe(x, s[0]) then [x] + s
    else
      assert s == [s[0]] + s[1..];
      [s[0]] + Insert(x, s[1..])
  }

  lemma {:induction false} InsertSorted(x: string, s: seq<string>)
    requires SortedStrings(s)
    ensures SortedStrings(Insert(x, s))
    decreases |s|
  {
    if |s| > 0 && !LexLe(x, s[0]) {
      var t := s[1..];
      assert SortedStrings(t) by {
        assert forall i :: 0 <= i < |t| ==> t[i] == s[i + 1];
      }
      InsertSorted(x, t);
      LexTotal(x, s[0]);
      var r := Insert(x, s);
      var u := Insert(x, t);
      assert r == [s[0]] + u;
      forall i | 0 <= i < |r| - 1 ensures LexLe(r[i], r[i + 1]) {
        if i > 0 {
          assert r[i] == u[i - 1] && r[i + 1] == u[i];
        }
      }
    }
  }

  /** The order `seps.sort()` leaves the separators in (insertion sort). */
  function SortStrings(s: seq<string>): (r: seq<string>)
    ensures |r| == |s| && multiset(r) == multiset(s)
    decreases |s|
  {
    if |s| == 0 then []
    else
      assert s == [s[0]] + s[1..];
      Insert(s[0], SortStrings(s[1..]))
  }

  /** The sorted separators are in Python's string order. */
  lemma {:induction false} SortStringsSorted(s: seq<string>)
    ensures SortedStrings(SortStrings(s))
    decreases |s|
  {
    if |s| > 0 {
      SortStringsSorted(s[1..]);
      InsertSorted(s[0], SortStrings(s[1..]));
    }
  }

  // ---------------------------------------------------------------------
  // multi_split

  /** A list of separators that `multi_split` sorts in place. */
  class StrList {
    var items: seq<string>

    constructor(items: seq<string>)
      ensures this.items == items
    {
      this.items := items;
    }
  }

  /** The condition of the warning: one separator occurs inside another
      one at a different position of the list. */
  predicate HasNestedSep(seps: seq<string>) {
    exists i, j :: 0 <= i < |seps| && 0 <= j < |seps| && i != j && Occurs(seps[i], seps[j])
  }

  /** The scanner's state: the index `last` of the last character consumed
      by a separator (-1 at the start), and the pieces appended so far. */
  datatype ScanState = ScanState(last: int, parts: seq<string>)

  /** One pass of the inner loop: separator `sep` tested at position i. */
  function SepStep(s: string, sep: string, i: nat, st: ScanState): (r: ScanState)
    requires i < |s| && st.last >= -1
    ensures r.last >= st.last && |st.parts| <= |r.parts|
  {
    if i + |sep| > |s| || st.last >= i then st
    else if s[i..i + |sep|] == sep then ScanState(i + |sep| - 1, st.parts + [s[st.last + 1..i]])
    else if i == |s| - 1 then ScanState(st.last, st.parts + [s[st.last + 1..]])
    else st
  }

  /** The inner loop at position i from separator j on. */
  function PositionScan(s: string, seps: seq<string>, i: nat, j: nat, st: ScanState): (r: ScanState)
    requires i < |s| && j <= |seps| && st.last >= -1
    ensures r.last >= st.last && |st.parts| <= |r.parts|
    decreases |seps| - j
  {
    if j == |seps| then st
    else
      PositionScan(s, seps, i, j + 1, SepStep(s, seps[j], i, st))
  }

  /** The inner loop only appends pieces: the pieces present before it are
      a prefix of the pieces after it. */
  lemma {:induction false} PositionScanAppends(s: string, seps: seq<string>, i: nat, j: nat, st: ScanState)
    requires i < |s| && j <= |seps| && st.last >= -1
    ensures PositionScan(s, seps, i, j, st).parts[..|st.parts|] == st.parts
    decreases |seps| - j
  {
    if j < |seps| {
      var next := SepStep(s, seps[j], i, st);
      var r := PositionScan(s, seps, i, j + 1, next);
      PositionScanAppends(s, seps, i, j + 1, next);
      assert next.parts[..|st.parts|] == st.parts;
      assert r.parts[..|st.parts|] == r.parts[..|next.parts|][..|st.parts|];
    }
  }

  /** The outer loop from position i on. */
  function Scan(s: string, seps: seq<string>, i: nat, st: ScanState): ScanState
    requires i <= |s| && st.last >= -1
    decreases |s| - i
  {
    if i == |s| then st else Scan(s, seps, i + 1, PositionScan(s, seps, i, 0, st))
  }

  /** The pieces `multi_split` returns for separators already sorted. */
  function Split(s: string, seps: seq<string>): seq<string> {
    Scan(s, seps, 0, ScanState(-1, [])).parts
  }

  /** The warning loops of `multi_split`: every ordered pair of distinct
      positions is tested for one separator occurring in the other. */
  method WarnNested(given: seq<string>) returns (warned: bool)
    ensures warned <==> HasNestedSep(given)
  {
    warned := false;
    for i := 0 to |given|
      invariant warned <==> exists a, b :: 0 <= a < i && 0 <= b < |given| && a != b && Occurs(given[a], given[b])
    {
      for j := 0 to |given|
        invariant warned <==> (exists a, b :: 0 <= a < i && 0 <= b < |given| && a != b && Occurs(given[a], given[b]))
                              || (exists b :: 0 <= b < j && i != b && Occurs(given[i], given[b]))
      {
        if Occurs(given[i], given[j]) && i != j {
          warned := true;
        }
      }
    }
  }

  /** The inner loop of the scan at position i: every separator in turn is
      skipped, matched or, at the last position, used to append the rest. */
  method ScanPosition(s: string, sorted: seq<string>, i: nat, last0: int, lst0: seq<string>)
    returns (last: int, lst: seq<string>)
    requires i < |s| && last0 >= -1
    ensures last >= -1
    ensures ScanState(last, lst) == PositionScan(s, sorted, i, 0, ScanState(last0, lst0))
  {
    last, lst := last0, lst0;
    for j := 0 to |sorted|
      invariant last >= -1
      invariant PositionScan(s, sorted, i, j, ScanState(last, lst)) == PositionScan(s, sorted, i, 0, ScanState(last0, lst0))
    {
      if i + |sorted[j]| > |s| || last >= i {
        continue;
      }
      if s[i..i + |sorted[j]|] == sorted[j] {
        lst := lst + [s[last + 1..i]];
        last := i + |sorted[j]| - 1;
      } else if i == |s| - 1 {
        lst := lst + [s[last + 1..]];
      }
    }
  }

  /** `multi_split(string, seps)`: warns when one separator occurs in
      another, sorts the caller's separator list in place, then scans the
      string position by position and separator by separator. */
  method MultiSplit(s: string, seps: StrList) returns (parts: seq<string>, warned: bool)
    modifies seps
    ensures seps.items == SortStrings(old(seps.items))
    ensures parts == Split(s, seps.items)
    ensures warned <==> HasNestedSep(old(seps.items))
  {
    warned := WarnNested(seps.items);

    var last := -1;
    var lst: seq<string> := [];
    seps.items := SortStrings(seps.items);
    var sorted := seps.items;

    for i := 0 to |s|
      invariant last >= -1 && seps.items == sorted
      invariant Scan(s, sorted, i, ScanState(last, lst)) == Scan(s, sorted, 0, ScanState(-1, []))
    {
      last, lst := ScanPosition(s, sorted, i, last, lst);
    }
    parts := lst;
  }

  /** The empty string splits into no pieces. */
  lemma SplitEmpty(seps: seq<string>)
    ensures Split("", seps) == []
  {
  }

  /** A position already consumed by a separator is never tested again, so
      matches do not overlap. */
  lemma {:induction false} CoveredPositionSkipped(s: string, seps: seq<string>, i: nat, j: nat, st: ScanState)
    requires i < |s| && j <= |seps| && st.last >= i
    ensures PositionScan(s, seps, i, j, st) == st
    decreases |seps| - j
  {
    if j < |seps| {
      CoveredPositionSkipped(s, seps, i, j + 1, st);
    }
  }

  /** Before the last position, separators that do not match change
      nothing. */
  lemma {:induction false} NoMatchUnchanged(s: string, seps: seq<string>, i: nat, j: nat, k: nat, st: ScanState)
    requires i < |s| - 1 && j <= k <= |seps| && st.last >= -1
    requires forall m :: j <= m < k ==> !MatchesAt(s, seps[m], i)
    ensures PositionScan(s, seps, i, j, st) == PositionScan(s, seps, i, k, st)
    decreases k - j
  {
    if j < k {
      NoMatchUnchanged(s, seps, i, j + 1, k, st);
    }
  }

  /** Before the last position, the first separator in sorted order that
      matches wins: the text since the previous match is appended and the
      cursor jumps to the end of the separator. */
  lemma FirstMatchWins(s: string, seps: seq<string>, i: nat, j: nat, st: ScanState)
    requires i < |s| - 1 && -1 <= st.last < i && j < |seps|
    requires |seps[j]| > 0 && MatchesAt(s, seps[j], i)
    requires forall m :: 0 <= m < j ==> !MatchesAt(s, seps[m], i)
    ensures PositionScan(s, seps, i, 0, st) == ScanState(i + |seps[j]| - 1, st.parts + [s[st.last + 1..i]])
  {
    NoMatchUnchanged(s, seps, i, 0, j, st);
    var next := ScanState(i + |seps[j]| - 1, st.parts + [s[st.last + 1..i]]);
    assert SepStep(s, seps[j], i, st) == next;
    CoveredPositionSkipped(s, seps, i, j + 1, next);
  }

  /** `n` copies of a piece. */
  function Copies(piece: string, n: nat): (r: seq<string>)
    ensures |r| == n && forall k :: 0 <= k < n ==> r[k] == piece
  {
    if n == 0 then [] else Copies(piece, n - 1) + [piece]
  }

  /** The number of one-character separators. */
  function OneCharCount(seps: seq<string>): nat
    decreases |seps|
  {
    if |seps| == 0 then 0 else (if |seps[0]| == 1 then 1 else 0) + OneCharCount(seps[1..])
  }

  lemma CopiesAdd(piece: string, m: nat, n: nat)
    ensures Copies(piece, m) + Copies(piece, n) == Copies(piece, m + n)
  {
    assert Copies(piece, m) + Copies(piece, n) == Copies(piece, m + n);
  }

  /** The contribution of one separator to the count of one-character ones. */
  lemma OneCharCountStep(seps: seq<string>, j: nat, k: nat)
    requires j < k <= |seps|
    ensures OneCharCount(seps[j..k]) == (if |seps[j]| == 1 then 1 else 0) + OneCharCount(seps[j + 1..k])
  {
    assert seps[j..k][1..] == seps[j + 1..k];
  }

  lemma AppendCopies(parts: seq<string>, piece: string, m: nat, n: nat)
    ensures parts + Copies(piece, m) + Copies(piece, n) == parts + Copies(piece, m + n)
  {
    CopiesAdd(piece, m, n);
  }

  /** A separator that does not match at the last position appends the rest
      once when it has one character, and nothing otherwise. */
  lemma RemainderStep(s: string, seps: seq<string>, j: nat, st: ScanState)
    requires |s| > 0 && -1 <= st.last < |s| - 1 && j < |seps|
    requires |seps[j]| > 0 && !MatchesAt(s, seps[j], |s| - 1)
    ensures PositionScan(s, seps, |s| - 1, j, st)
         == PositionScan(s, seps, |s| - 1, j + 1,
              ScanState(st.last, st.parts + Copies(s[st.last + 1..], if |seps[j]| == 1 then 1 else 0)))
  {
    SepStepAtEnd(s, seps[j], st);
  }

  lemma SepStepAtEnd(s: string, sep: string, st: ScanState)
    requires |s| > 0 && -1 <= st.last < |s| - 1
    requires |sep| > 0 && !MatchesAt(s, sep, |s| - 1)
    ensures SepStep(s, sep, |s| - 1, st) == ScanState(st.last, st.parts + Copies(s[st.last + 1..], if |sep| == 1 then 1 else 0))
  {
    var rest := s[st.last + 1..];
    if |sep| == 1 {
      assert Copies(rest, 1) == [rest];
    } else {
      assert st.parts + Copies(rest, 0) == st.parts;
    }
  }

  /** At the last position, separators that do not match there each append
      the rest of the text after the previous match when they have one
      character, and nothing when they are longer and do not fit. */
  lemma {:induction false} RemainderUpTo(s: string, seps: seq<string>, j: nat, k: nat, st: ScanState)
    requires |s| > 0 && -1 <= st.last < |s| - 1 && j <= k <= |seps|
    requires forall m :: j <= m < k ==> |seps[m]| > 0 && !MatchesAt(s, seps[m], |s| - 1)
    ensures PositionScan(s, seps, |s| - 1, j, st)
         == PositionScan(s, seps, |s| - 1, k, ScanState(st.last, st.parts + Copies(s[st.last + 1..], OneCharCount(seps[j..k]))))
    decreases k - j
  {
    var rest := s[st.last + 1..];
    if j == k {
      assert seps[j..k] == [];
      assert st.parts + [] == st.parts;
    } else {
      var add := if |seps[j]| == 1 then 1 else 0;
      var more := OneCharCount(seps[j + 1..k]);
      var mid := ScanState(st.last, st.parts + Copies(rest, add));
      var fin := ScanState(st.last, st.parts + Copies(rest, OneCharCount(seps[j..k])));
      RemainderStep(s, seps, j, st);
      RemainderUpTo(s, seps, j + 1, k, mid);
      OneCharCountStep(seps, j, k);
      AppendCopies(st.parts, rest, add, more);
      assert ScanState(mid.last, mid.parts + Copies(s[mid.last + 1..], more)) == fin;
    }
  }

  /** At the last position, when no separator matches there, the rest of
      the text after the previous match is appended once for every
      one-character separator; longer separators do not fit and add
      nothing. */
  lemma RemainderAtEnd(s: string, seps: seq<string>, j: nat, st: ScanState)
    requires |s| > 0 && -1 <= st.last < |s| - 1 && j <= |seps|
    requires forall m :: 0 <= m < |seps| ==> |seps[m]| > 0 && !MatchesAt(s, seps[m], |s| - 1)
    ensures PositionScan(s, seps, |s| - 1, j, st)
         == ScanState(st.last, st.parts + Copies(s[st.last + 1..], OneCharCount(seps[j..])))
  {
    RemainderUpTo(s, seps, j, |seps|, st);
    assert seps[j..|seps|] == seps[j..];
  }

  /** At the last position, when a separator matches there (necessarily a
      one-character one), every one-character separator sorted before it
      first appends the whole rest of the text, the matching character
      included; the match then appends the text before it and consumes
      the last character, so later separators are skipped. */
  lemma RemainderThenMatch(s: string, seps: seq<string>, j: nat, st: ScanState)
    requires |s| > 0 && -1 <= st.last < |s| - 1 && j < |seps|
    requires |seps[j]| > 0 && MatchesAt(s, seps[j], |s| - 1)
    requires forall m :: 0 <= m < j ==> |seps[m]| > 0 && !MatchesAt(s, seps[m], |s| - 1)
    ensures PositionScan(s, seps, |s| - 1, 0, st)
         == ScanState(|s| - 1, st.parts + Copies(s[st.last + 1..], OneCharCount(seps[..j])) + [s[st.last + 1..|s| - 1]])
  {
    var i := |s| - 1;
    RemainderUpTo(s, seps, 0, j, st);
    assert seps[0..j] == seps[..j];
    var mid := ScanState(st.last, st.parts + Copies(s[st.last + 1..], OneCharCount(seps[..j])));
    var next := ScanState(i, mid.parts + [s[st.last + 1..i]]);
    assert SepStep(s, seps[j], i, mid) == next;
    CoveredPositionSkipped(s, seps, i, j + 1, next);
  }

  /** The empty separator, which sorts first, matches at every position not
      yet consumed: it appends the text since the previous match and moves
      the cursor to just before the position, so the position is tested
      again by the other separators. */
  lemma EmptySeparatorMatches(s: string, i: nat, st: ScanState)
    requires i < |s| && -1 <= st.last < i
    ensures SepStep(s, "", i, st) == ScanState(i - 1, st.parts + [s[st.last + 1..i]])
  {
  }

  /** "," comes before ";", so sorting leaves these separators as given. */
  lemma SortExample()
    ensures SortStrings([",", ";"]) == [",", ";"]
  {
    assert LexLess(",", ";");
  }

  /** Splitting "a,b;c" on "," and ";": the remainder "c" comes out twice. */
  lemma SplitDuplicatesRemainder()
    ensures Split("a,b;c", [",", ";"]) == ["a", "b", "c", "c"]
  {
    var s := "a,b;c";
    var seps := [",", ";"];
    var st0 := ScanState(-1, []);
    var st2 := ScanState(1, ["a"]);
    var st4 := ScanState(3, ["a", "b"]);
    DuplicatesAt0();
    DuplicatesAt1();
    DuplicatesAt2();
    DuplicatesSecondHalf();
    assert Scan(s, seps, 0, st0) == Scan(s, seps, 1, st0);
    assert Scan(s, seps, 1, st0) == Scan(s, seps, 2, st2);
    assert Scan(s, seps, 2, st2) == Scan(s, seps, 3, st2);
    assert Scan(s, seps, 3, st2) == Scan(s, seps, 4, st4);
    assert Scan(s, seps, 4, st4) == Scan(s, seps, 5, ScanState(3, ["a", "b", "c", "c"]));
  }

  lemma DuplicatesAt0()
    ensures PositionScan("a,b;c", [",", ";"], 0, 0, ScanState(-1, [])) == ScanState(-1, [])
  {
    var s := "a,b;c";
    var seps := [",", ";"];
    assert s[0..1] == "a";
    assert !MatchesAt(s, seps[0], 0) && !MatchesAt(s, seps[1], 0);
    NoMatchUnchanged(s, seps, 0, 0, 2, ScanState(-1, []));
  }

  lemma DuplicatesAt1()
    ensures PositionScan("a,b;c", [",", ";"], 1, 0, ScanState(-1, [])) == ScanState(1, ["a"])
  {
    var s := "a,b;c";
    var seps := [",", ";"];
    assert s[0..1] == "a" && s[1..2] == ",";
    FirstMatchWins(s, seps, 1, 0, ScanState(-1, []));
  }

  lemma DuplicatesAt2()
    ensures PositionScan("a,b;c", [",", ";"], 2, 0, ScanState(1, ["a"])) == ScanState(1, ["a"])
  {
    var s := "a,b;c";
    var seps := [",", ";"];
    assert s[2..3] == "b";
    assert !MatchesAt(s, seps[0], 2) && !MatchesAt(s, seps[1], 2);
    NoMatchUnchanged(s, seps, 2, 0, 2, ScanState(1, ["a"]));
  }

  lemma DuplicatesSecondHalf()
    ensures PositionScan("a,b;c", [",", ";"], 3, 0, ScanState(1, ["a"])) == ScanState(3, ["a", "b"])
    ensures PositionScan("a,b;c", [",", ";"], 4, 0, ScanState(3, ["a", "b"])) == ScanState(3, ["a", "b", "c", "c"])
  {
    var s := "a,b;c";
    var seps := [",", ";"];
    assert s[2..3] == "b" && s[3..4] == ";" && s[4..5] == "c" && s[4..] == "c";
    assert !MatchesAt(s, seps[0], 3) && MatchesAt(s, seps[1], 3);
    FirstMatchWins(s, seps, 3, 1, ScanState(1, ["a"]));
    assert !MatchesAt(s, seps[0], 4) && !MatchesAt(s, seps[1], 4);
    RemainderAtEnd(s, seps, 0, ScanState(3, ["a", "b"]));
    assert OneCharCount(seps) == 2 by {
      assert seps[1..] == [";"] && seps[1..][1..] == [];
    }
    assert seps[0..] == seps;
    assert Copies("c", 2) == ["c", "c"];
  }

  /** Splitting "a;" on "," and ";": at the last position "," first appends
      the whole rest "a;", then ";" matches and appends "a". */
  lemma SplitRemainderBeforeMatch()
    ensures Split("a;", [",", ";"]) == ["a;", "a"]
  {
    var s := "a;";
    var seps := [",", ";"];
    var st0 := ScanState(-1, []);
    assert s[0..1] == "a" && s[1..2] == ";" && s[0..] == "a;";
    assert !MatchesAt(s, seps[0], 0) && !MatchesAt(s, seps[1], 0);
    NoMatchUnchanged(s, seps, 0, 0, 2, st0);
    assert Scan(s, seps, 0, st0) == Scan(s, seps, 1, st0);
    assert !MatchesAt(s, seps[0], 1) && MatchesAt(s, seps[1], 1);
    RemainderThenMatch(s, seps, 1, st0);
    assert OneCharCount(seps[..1]) == 1 by {
      assert seps[..1] == [","] && seps[..1][1..] == [];
    }
    assert Copies("a;", 1) == ["a;"];
    assert Scan(s, seps, 1, st0) == Scan(s, seps, 2, ScanState(1, ["a;", "a"]));
  }

  /** Splitting "a--b" on "--": the remainder "b" is lost. */
  lemma SplitDropsRemainder()
    ensures Split("a--b", ["--"]) == ["a"]
  {
    var s := "a--b";
    var seps := ["--"];
    var st0 := ScanState(-1, []);
    assert s[0..2] == "a-";
    assert !MatchesAt(s, seps[0], 0);
    NoMatchUnchanged(s, seps, 0, 0, 1, st0);
    assert Scan(s, seps, 0, st0) == Scan(s, seps, 1, st0);
    assert MatchesAt(s, seps[0], 1) && s[0..1] == "a";
    FirstMatchWins(s, seps, 1, 0, st0);
    var st2 := ScanState(2, ["a"]);
    assert Scan(s, seps, 1, st0) == Scan(s, seps, 2, st2);
    CoveredPositionSkipped(s, seps, 2, 0, st2);
    assert Scan(s, seps, 2, st2) == Scan(s, seps, 3, st2);
    RemainderAtEnd(s, seps, 0, st2);
    assert seps[0..] == seps && seps[1..] == [];
    assert st2.parts + Copies(s[3..], 0) == st2.parts;
    assert Scan(s, seps, 3, st2) == Scan(s, seps, 4, st2);
  }

  // ---------------------------------------------------------------------
  // cnt_add

  /** A counting dictionary that `cnt_add` updates in place. */
  class Counter<K(==)> {
    var counts: map<K, int>

    constructor(counts: map<K, int>)
      ensures this.counts == counts
    {
      this.counts := counts;
    }
  }

  /** The dictionary after counting one more `value`. */
  function Increment<K(!new)>(m: map<K, int>, value: K): (r: map<K, int>)
    ensures value in r && r[value] == (if value in m then m[value] + 1 else 1)
    ensures forall k :: k != value ==> (k in r <==> k in m) && (k in m ==> r[k] == m[k])
  {
    m[value := if value in m then m[value] + 1 else 1]
  }

  /** `cnt_add(cnt, value)`: bumps the count of `value` (or creates it with
      1) and returns the same dictionary. */
  method CntAdd<K(==,!new)>(cnt: Counter<K>, value: K) returns (r: Counter<K>)
    modifies cnt
    ensures r == cnt
    ensures cnt.counts == Increment(old(cnt.counts), value)
  {
    if value in cnt.counts {
      cnt.counts := cnt.counts[value := cnt.counts[value] + 1];
    } else {
      cnt.counts := cnt.counts[value := 1];
    }
    return cnt;
  }

  /** Counting every element of a sequence, from the left, starting from
      an empty dictionary. */
  function CountAll<K(!new)>(s: seq<K>): map<K, int>
    decreases |s|
  {
    if |s| == 0 then map[] else Increment(CountAll(s[..|s| - 1]), s[|s| - 1])
  }

  /** Repeated `cnt_add` calls count occurrences just as
      `collections.Counter` does: the keys are the elements and each count
      is its number of occurrences. */
  lemma {:induction false} CountAllCounts<K(!new)>(s: seq<K>)
    ensures forall k :: k in CountAll(s) <==> k in s
    ensures forall k :: k in CountAll(s) ==> CountAll(s)[k] == multiset(s)[k]
    decreases |s|
  {
    if |s| > 0 {
      var front := s[..|s| - 1];
      var x := s[|s| - 1];
      CountAllCounts(front);
      assert s == front + [x];
      assert multiset(s) == multiset(front) + multiset{x};
    }
  }
}
