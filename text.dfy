/**
 * The Python string primitives the recommender relies on, restricted to ASCII:
 * `str.lower`, `str.strip`, `re.sub(r'\s+', '_', ...)`, `str.split(sep)` and
 * `sep.join(parts)`.
 */
module Text {

  datatype Option<T> = None | Some(value: T)

  /** `str.isspace` on ASCII (and what the regex class `\s` matches there):
      TAB, LF, VT, FF, CR, the separators 0x1C-0x1F and SPACE. */
  predicate IsSpace(c: char) {
    var n := c as int;
    (9 <= n <= 13) || (28 <= n <= 32)
  }

  predicate IsUpper(c: char) {
    'A' <= c <= 'Z'
  }

  /** `str.lower` on one character. */
  function LowerChar(c: char): (r: char)
    ensures !IsUpper(r)
    ensures IsSpace(r) == IsSpace(c)
    ensures !IsUpper(c) ==> r == c
    ensures IsUpper(c) ==> 'a' <= r <= 'z' && r as int - 'a' as int == c as int - 'A' as int
  {
    if IsUpper(c) then (c as int + 32) as char else c
  }

  /** `str.lower`. */
  function Lower(s: string): (r: string)
    ensures |r| == |s|
    ensures forall i :: 0 <= i < |s| ==> r[i] == LowerChar(s[i])
  {
    seq(|s|, i requires 0 <= i < |s| => LowerChar(s[i]))
  }

  /** The index of the first character of s at or after i that is not whitespace,
      or |s| when there is none: the end of the whitespace run starting at i. */
  function SkipSpaces(s: string, i: nat): (k: nat)
    requires i <= |s|
    ensures i <= k <= |s|
    ensures forall p :: i <= p < k ==> IsSpace(s[p])
    ensures k == |s| || !IsSpace(s[k])
    decreases |s| - i
  {
    if i < |s| && IsSpace(s[i]) then SkipSpaces(s, i + 1) else i
  }

  /** The end of s[..j] once its trailing whitespace is dropped. */
  function TrimEnd(s: string, j: nat): (e: nat)
    requires j <= |s|
    ensures e <= j
    ensures forall p :: e <= p < j ==> IsSpace(s[p])
    ensures e == 0 || !IsSpace(s[e - 1])
  {
    if j > 0 && IsSpace(s[j - 1]) then TrimEnd(s, j - 1) else j
  }

  /** `str.lstrip()`: drops the leading whitespace. */
  function StripLeft(s: string): string {
    s[SkipSpaces(s, 0)..]
  }

  /** `str.rstrip()`: drops the trailing whitespace. */
  function StripRight(s: string): string {
    s[..TrimEnd(s, |s|)]
  }

  /** `str.strip()`. */
  function Strip(s: string): string {
    StripRight(StripLeft(s))
  }

  /** `re.sub(r'\s+', '_', s)`: every maximal run of whitespace becomes one underscore. */
  function ReplaceSpaceRuns(s: string): (r: string)
    ensures forall i :: 0 <= i < |r| ==> !IsSpace(r[i])
    ensures r == [] <==> s == []
    ensures s != [] && !IsSpace(s[0]) ==> r[0] == s[0]
    ensures s != [] && !IsSpace(s[|s| - 1]) ==> r[|r| - 1] == s[|s| - 1]
    decreases |s|
  {
    if s == [] then []
    else if IsSpace(s[0]) then "_" + ReplaceSpaceRuns(s[SkipSpaces(s, 0)..])
    else [s[0]] + ReplaceSpaceRuns(s[1..])
  }

  /** The normalisation applied to ingredient names and attributes:
      `re.sub(r'\s+', '_', s.lower().strip())`. */
  function Normalise(s: string): string {
    ReplaceSpaceRuns(Strip(Lower(s)))
  }

  /** A normalised text: no whitespace and no upper-case letter. */
  ghost predicate NormalForm(t: string) {
    forall i :: 0 <= i < |t| ==> !IsSpace(t[i]) && !IsUpper(t[i])
  }

  ghost predicate AllSpace(s: string) {
    forall i :: 0 <= i < |s| ==> IsSpace(s[i])
  }

  /** s[i] is the first character of s that is not whitespace. */
  ghost predicate FirstNonSpace(s: string, i: int) {
    0 <= i < |s| && !IsSpace(s[i]) && forall p :: 0 <= p < i ==> IsSpace(s[p])
  }

  /** s[j] is the last character of s that is not whitespace. */
  ghost predicate LastNonSpace(s: string, j: int) {
    0 <= j < |s| && !IsSpace(s[j]) && forall p :: j < p < |s| ==> IsSpace(s[p])
  }

  lemma StripLeftAt(s: string, i: int)
    requires FirstNonSpace(s, i)
    ensures StripLeft(s) == s[i..]
  {
    var k := SkipSpaces(s, 0);
    assert k <= i;
  }

  lemma StripRightAt(s: string, j: int)
    requires LastNonSpace(s, j)
    ensures StripRight(s) == s[..j + 1]
  {
    var e := TrimEnd(s, |s|);
    assert j < e;
  }

  /** `str.strip()` keeps exactly the text from the first to the last non-blank character. */
  lemma StripInfix(s: string, i: int, j: int)
    requires FirstNonSpace(s, i) && LastNonSpace(s, j)
    ensures i <= j && Strip(s) == s[i..j + 1]
  {
    StripLeftAt(s, i);
    var t := s[i..];
    assert LastNonSpace(t, j - i) by {
      forall p | j - i < p < |t| ensures IsSpace(t[p]) {
        assert t[p] == s[p + i];
      }
    }
    StripRightAt(t, j - i);
    assert t[..j - i + 1] == s[i..j + 1];
  }

  lemma StripBlank(s: string)
    requires AllSpace(s)
    ensures StripLeft(s) == [] && Strip(s) == []
  {
  }

  lemma LowerAllSpace(s: string)
    ensures AllSpace(Lower(s)) <==> AllSpace(s)
  {
  }

  lemma LowerFirstLast(s: string, f: int, l: int)
    requires FirstNonSpace(s, f) && LastNonSpace(s, l)
    ensures FirstNonSpace(Lower(s), f) && LastNonSpace(Lower(s), l)
  {
  }

  /** Stripping the lower-cased text whose non-blank part runs from s[f] to s[l]. */
  lemma StripLowerNonBlank(s: string, f: int, l: int)
    requires FirstNonSpace(s, f) && LastNonSpace(s, l)
    ensures var t := Strip(Lower(s));
      && |t| > 0 && t[0] == LowerChar(s[f]) && t[|t| - 1] == LowerChar(s[l])
      && !IsSpace(t[0]) && !IsSpace(t[|t| - 1])
      && forall p :: 0 <= p < |t| ==> !IsUpper(t[p])
  {
    var lo := Lower(s);
    LowerFirstLast(s, f, l);
    StripInfix(lo, f, l);
    var t := Strip(lo);
    assert t == lo[f..l + 1];
    assert t[0] == lo[f] && t[|t| - 1] == lo[l];
    forall p | 0 <= p < |t| ensures !IsUpper(t[p]) {
      assert t[p] == lo[f + p];
    }
  }

  /** The replacement adds no upper-case letter. */
  lemma {:induction false} ReplaceSpaceRunsNoUpper(s: string)
    requires forall i :: 0 <= i < |s| ==> !IsUpper(s[i])
    ensures forall i :: 0 <= i < |ReplaceSpaceRuns(s)| ==> !IsUpper(ReplaceSpaceRuns(s)[i])
    decreases |s|
  {
    if s != [] {
      var k := if IsSpace(s[0]) then SkipSpaces(s, 0) else 1;
      var u := s[k..];
      assert forall i :: 0 <= i < |u| ==> u[i] == s[k + i];
      ReplaceSpaceRunsNoUpper(u);
    }
  }

  lemma ReplaceSpaceRunsShape(t: string)
    requires |t| > 0 && !IsSpace(t[0]) && !IsSpace(t[|t| - 1])
    requires forall p :: 0 <= p < |t| ==> !IsUpper(t[p])
    ensures NormalForm(ReplaceSpaceRuns(t))
    ensures |ReplaceSpaceRuns(t)| > 0
    ensures ReplaceSpaceRuns(t)[0] == t[0]
    ensures ReplaceSpaceRuns(t)[|ReplaceSpaceRuns(t)| - 1] == t[|t| - 1]
  {
    ReplaceSpaceRunsNoUpper(t);
  }

  /** Normalising a text whose non-blank part runs from s[f] to s[l]. */
  lemma NormaliseNonBlank(s: string, f: int, l: int)
    requires FirstNonSpace(s, f) && LastNonSpace(s, l)
    ensures NormalForm(Normalise(s))
    ensures |Normalise(s)| > 0
    ensures Normalise(s)[0] == LowerChar(s[f])
    ensures Normalise(s)[|Normalise(s)| - 1] == LowerChar(s[l])
  {
    var t := Strip(Lower(s));
    StripLowerNonBlank(s, f, l);
    ReplaceSpaceRunsShape(t);
    var r := ReplaceSpaceRuns(t);
    assert r[0] == LowerChar(s[f]);
    assert r[|r| - 1] == LowerChar(s[l]);
    assert NormalForm(r);
  }

  /** What normalisation guarantees about every ingredient name and attribute:
      no whitespace, no upper-case letter, empty exactly for blank input, and its
      ends are the lower-cased first and last non-blank characters of the input. */
  lemma NormaliseShape(s: string)
    ensures NormalForm(Normalise(s))
    ensures Normalise(s) == [] <==> AllSpace(s)
    ensures forall i :: FirstNonSpace(s, i) ==> |Normalise(s)| > 0 && Normalise(s)[0] == LowerChar(s[i])
    ensures forall j :: LastNonSpace(s, j) ==> |Normalise(s)| > 0 && Normalise(s)[|Normalise(s)| - 1] == LowerChar(s[j])
  {
    if AllSpace(s) {
      LowerAllSpace(s);
      StripBlank(Lower(s));
      assert forall i :: !FirstNonSpace(s, i);
      assert forall j :: !LastNonSpace(s, j);
    } else {
      var c :| 0 <= c < |s| && !IsSpace(s[c]);
      FirstOfNonBlank(s, c);
      LastOfNonBlank(s, c);
      var f :| FirstNonSpace(s, f);
      var l :| LastNonSpace(s, l);
      NormaliseNonBlank(s, f, l);
      assert forall i :: FirstNonSpace(s, i) ==> i == f;
      assert forall j :: LastNonSpace(s, j) ==> j == l;
    }
  }

  /** A name that does not itself contain an underscore never gets one at either end. */
  lemma NormaliseNoEdgeUnderscore(s: string)
    requires forall i :: 0 <= i < |s| ==> s[i] != '_'
    ensures Normalise(s) == [] || (Normalise(s)[0] != '_' && Normalise(s)[|Normalise(s)| - 1] != '_')
  {
    NormaliseShape(s);
    if !AllSpace(s) {
      var i :| 0 <= i < |s| && !IsSpace(s[i]);
      FirstOfNonBlank(s, i);
      var f :| FirstNonSpace(s, f);
      LastOfNonBlank(s, i);
      var l :| LastNonSpace(s, l);
    }
  }

  lemma {:induction false} FirstOfNonBlank(s: string, i: int)
    requires 0 <= i < |s| && !IsSpace(s[i])
    ensures exists f :: FirstNonSpace(s, f)
    decreases i
  {
    if forall p :: 0 <= p < i ==> IsSpace(s[p]) {
      assert FirstNonSpace(s, i);
    } else {
      var p :| 0 <= p < i && !IsSpace(s[p]);
      FirstOfNonBlank(s, p);
    }
  }

  lemma {:induction false} LastOfNonBlank(s: string, j: int)
    requires 0 <= j < |s| && !IsSpace(s[j])
    ensures exists l :: LastNonSpace(s, l)
    decreases |s| - j
  {
    if forall p :: j < p < |s| ==> IsSpace(s[p]) {
      assert LastNonSpace(s, j);
    } else {
      var p :| j < p < |s| && !IsSpace(s[p]);
      LastOfNonBlank(s, p);
    }
  }

  /** A text without whitespace is left as it is. */
  lemma {:induction false} ReplaceSpaceRunsNoSpace(t: string)
    requires forall i :: 0 <= i < |t| ==> !IsSpace(t[i])
    ensures ReplaceSpaceRuns(t) == t
  {
    if t != [] {
      var u := t[1..];
      assert forall i :: 0 <= i < |u| ==> u[i] == t[i + 1];
      ReplaceSpaceRunsNoSpace(u);
      assert !IsSpace(t[0]);
      assert ReplaceSpaceRuns(t) == [t[0]] + ReplaceSpaceRuns(u);
      assert t == [t[0]] + u;
    }
  }

  /** A non-empty run of whitespace becomes one underscore. */
  lemma ReplaceSpaceRunsBlank(w: string)
    requires w != [] && AllSpace(w)
    ensures ReplaceSpaceRuns(w) == "_"
  {
    var k := SkipSpaces(w, 0);
    assert k == |w|;
    assert w[k..] == [];
  }

  /** SkipSpaces stops at the first non-blank character at or after i. */
  lemma SkipSpacesAt(s: string, i: nat, k: nat)
    requires i <= k <= |s|
    requires forall p :: i <= p < k ==> IsSpace(s[p])
    requires k == |s| || !IsSpace(s[k])
    ensures SkipSpaces(s, i) == k
  {
  }

  /** The first step of the replacement when the first character is kept. */
  lemma ReplaceSpaceRunsKept(s: string, c: char)
    requires s != [] && s[0] == c && !IsSpace(c)
    ensures ReplaceSpaceRuns(s) == [c] + ReplaceSpaceRuns(s[1..])
  {
  }

  /** The first step of the replacement when s starts with whitespace: the leading
      run becomes one underscore. */
  lemma ReplaceSpaceRunsRun(s: string)
    requires s != [] && IsSpace(s[0])
    ensures ReplaceSpaceRuns(s) == "_" + ReplaceSpaceRuns(s[SkipSpaces(s, 0)..])
  {
  }

  /** A whitespace run at the start of x that ends inside x, or right before a
      non-blank y, is also the run at the start of x + y. */
  lemma SkipSpacesAppend(x: string, y: string)
    requires y != []
    requires SkipSpaces(x, 0) < |x| || !IsSpace(y[0])
    ensures SkipSpaces(x + y, 0) == SkipSpaces(x, 0)
  {
    var s := x + y;
    var k := SkipSpaces(x, 0);
    assert forall p :: 0 <= p < k ==> s[p] == x[p];
    assert s[k] == if k < |x| then x[k] else y[0];
    SkipSpacesAt(s, 0, k);
  }

  /** The replacement works piece by piece when the cut does not fall inside a
      whitespace run: the pieces' results are simply concatenated. */
  lemma {:induction false} ReplaceSpaceRunsAppend(x: string, y: string)
    requires x == [] || y == [] || !IsSpace(x[|x| - 1]) || !IsSpace(y[0])
    ensures ReplaceSpaceRuns(x + y) == ReplaceSpaceRuns(x) + ReplaceSpaceRuns(y)
    decreases |x|, 1
  {
    if x == [] {
      assert ReplaceSpaceRuns(x) == [];
      assert x + y == y;
    } else if y == [] {
      assert ReplaceSpaceRuns(y) == [];
      assert x + y == x;
    } else if !IsSpace(x[0]) {
      AppendKeptHead(x, y);
    } else {
      AppendSpaceHead(x, y);
    }
  }

  /** ReplaceSpaceRunsAppend when x starts with a character that is kept. */
  lemma {:induction false} AppendKeptHead(x: string, y: string)
    requires x != [] && y != [] && !IsSpace(x[0])
    requires !IsSpace(x[|x| - 1]) || !IsSpace(y[0])
    ensures ReplaceSpaceRuns(x + y) == ReplaceSpaceRuns(x) + ReplaceSpaceRuns(y)
    decreases |x|, 0
  {
    var x' := x[1..];
    assert x' == [] || x'[|x'| - 1] == x[|x| - 1];
    ReplaceSpaceRunsAppend(x', y);
    KeptHeads(x, y);
    StepAppend(ReplaceSpaceRuns, x, y, [x[0]], 1);
  }

  lemma KeptHeads(x: string, y: string)
    requires x != [] && !IsSpace(x[0])
    ensures ReplaceSpaceRuns(x + y) == [x[0]] + ReplaceSpaceRuns((x + y)[1..])
    ensures ReplaceSpaceRuns(x) == [x[0]] + ReplaceSpaceRuns(x[1..])
  {
    assert (x + y)[0] == x[0];
    ReplaceSpaceRunsKept(x, x[0]);
    ReplaceSpaceRunsKept(x + y, x[0]);
  }

  /** ReplaceSpaceRunsAppend when x starts with a whitespace run, which ends inside
      x or where a non-blank y starts. */
  lemma {:induction false} AppendSpaceHead(x: string, y: string)
    requires x != [] && y != [] && IsSpace(x[0])
    requires !IsSpace(x[|x| - 1]) || !IsSpace(y[0])
    ensures ReplaceSpaceRuns(x + y) == ReplaceSpaceRuns(x) + ReplaceSpaceRuns(y)
    decreases |x|, 0
  {
    var s := x + y;
    assert s[0] == x[0];
    ReplaceSpaceRunsRun(x);
    ReplaceSpaceRunsRun(s);
    var k := SkipSpaces(x, 0);
    SkipSpacesAppend(x, y);
    var x' := x[k..];
    assert x' == [] || x'[|x'| - 1] == x[|x| - 1];
    ReplaceSpaceRunsAppend(x', y);
    StepAppend(ReplaceSpaceRuns, x, y, "_", k);
  }

  /** The sequence arithmetic behind one step of ReplaceSpaceRunsAppend, for any
      function f that maps x and x + y to the same head h followed by f of what
      remains after the first k characters. */
  lemma StepAppend(f: string -> string, x: string, y: string, h: string, k: nat)
    requires 1 <= k <= |x|
    requires f(x + y) == h + f((x + y)[k..])
    requires f(x) == h + f(x[k..])
    requires f(x[k..] + y) == f(x[k..]) + f(y)
    ensures f(x + y) == f(x) + f(y)
  {
    assert (x + y)[k..] == x[k..] + y;
  }

  lemma LowerNormal(t: string)
    requires NormalForm(t)
    ensures Lower(t) == t
  {
    assert forall i :: 0 <= i < |t| ==> Lower(t)[i] == t[i];
  }

  lemma StripNoSpace(t: string)
    requires forall i :: 0 <= i < |t| ==> !IsSpace(t[i])
    ensures Strip(t) == t
  {
    assert SkipSpaces(t, 0) == 0;
    assert TrimEnd(t, |t|) == |t|;
  }

  /** For instance, `re.sub(r'\s+', '_', "a  b")` is `"a_b"`. */
  lemma ReplaceSpaceRunsExample()
    ensures ReplaceSpaceRuns("a  b") == "a_b"
  {
    assert "a  b" == "a" + ("  " + "b");
    ReplaceSpaceRunsAppend("  ", "b");
    ReplaceSpaceRunsAppend("a", "  " + "b");
    ReplaceSpaceRunsBlank("  ");
    ReplaceSpaceRunsNoSpace("a");
    ReplaceSpaceRunsNoSpace("b");
  }

  /** Normalising an already normalised text changes nothing. */
  lemma NormaliseIdempotent(s: string)
    ensures Normalise(Normalise(s)) == Normalise(s)
  {
    var t := Normalise(s);
    NormaliseShape(s);
    LowerNormal(t);
    StripNoSpace(t);
    ReplaceSpaceRunsNoSpace(t);
  }

  // ---------------------------------------------------------------- split / join

  /** `sep` occurs in `s` starting at index `j`. */
  ghost predicate OccursAt(s: string, sep: string, j: int) {
    0 <= j && j + |sep| <= |s| && s[j..j + |sep|] == sep
  }

  /** `sep` occurs in `s` exactly once. */
  ghost predicate OccursOnce(s: string, sep: string) {
    exists i :: OccursAt(s, sep, i) && forall j :: OccursAt(s, sep, j) ==> j == i
  }

  /** An occurrence at j >= d in s is an occurrence at j - d in s[d..]. */
  lemma OccursDrop(s: string, sep: string, d: nat, j: int)
    requires d <= j && d <= |s| && OccursAt(s, sep, j)
    ensures OccursAt(s[d..], sep, j - d)
  {
    assert s[d..][j - d..j - d + |sep|] == s[j..j + |sep|];
  }

  /** An occurrence at m in s[d..] is an occurrence at m + d in s. */
  lemma OccursUndrop(s: string, sep: string, d: nat, m: int)
    requires d <= |s| && OccursAt(s[d..], sep, m)
    ensures OccursAt(s, sep, m + d)
  {
    assert s[d..][m..m + |sep|] == s[m + d..m + d + |sep|];
  }

  lemma OccursChars(s: string, sep: string, j: int)
    ensures OccursAt(s, sep, j) ==> forall p :: 0 <= p < |sep| ==> s[j + p] == sep[p]
  {
    if OccursAt(s, sep, j) {
      forall p | 0 <= p < |sep| ensures s[j + p] == sep[p] {
        assert s[j..j + |sep|][p] == s[j + p];
      }
    }
  }

  lemma OccursInPrefix(s: string, sep: string, e: nat)
    requires e <= |s|
    ensures forall j :: OccursAt(s[..e], sep, j) ==> OccursAt(s, sep, j) && j + |sep| <= e
  {
    forall j | OccursAt(s[..e], sep, j) ensures OccursAt(s, sep, j) && j + |sep| <= e {
      assert s[..e][j..j + |sep|] == s[j..j + |sep|];
    }
  }

  /** A separator with a character that s lacks never occurs in s. */
  lemma NoOccurrence(s: string, sep: string, q: nat)
    requires q < |sep| && sep[q] !in s
    ensures forall j :: !OccursAt(s, sep, j)
  {
    forall j | 0 <= j && j + |sep| <= |s| ensures !OccursAt(s, sep, j) {
      OccursChars(s, sep, j);
      assert s[j + q] in s;
    }
  }

  /** The leftmost occurrence of `sep` in `s` at or after index i, if any. */
  function FindFrom(s: string, sep: string, i: nat): (r: Option<nat>)
    requires |sep| > 0
    ensures r.Some? ==> i <= r.value && OccursAt(s, sep, r.value)
    ensures r.Some? ==> forall j :: i <= j < r.value ==> !OccursAt(s, sep, j)
    ensures r.None? ==> forall j :: i <= j ==> !OccursAt(s, sep, j)
    decreases |s| - i
  {
    if i + |sep| > |s| then None
    else if s[i..i + |sep|] == sep then Some(i)
    else FindFrom(s, sep, i + 1)
  }

  /** `s.find(sep)`: the leftmost occurrence of `sep` in `s`, if any. */
  function Find(s: string, sep: string): (r: Option<nat>)
    requires |sep| > 0
    ensures r.Some? ==> OccursAt(s, sep, r.value) && forall j :: 0 <= j < r.value ==> !OccursAt(s, sep, j)
    ensures r.None? ==> forall j :: !OccursAt(s, sep, j)
  {
    FindFrom(s, sep, 0)
  }

  /** `s.split(sep)`: the pieces between the non-overlapping occurrences of `sep`,
      scanning from the left; always at least one piece. */
  function Split(s: string, sep: string): (parts: seq<string>)
    requires |sep| > 0
    ensures |parts| >= 1
    decreases |s|
  {
    match Find(s, sep)
    case None => [s]
    case Some(i) => [s[..i]] + Split(s[i + |sep|..], sep)
  }

  /** A text in which the separator's first character never occurs splits into itself. */
  lemma SplitAbsent(s: string, sep: string)
    requires |sep| > 0 && sep[0] !in s
    ensures Split(s, sep) == [s]
  {
    NoOccurrence(s, sep, 0);
  }

  /** Find reports the first occurrence. */
  lemma FindAt(s: string, sep: string, k: nat)
    requires |sep| > 0 && OccursAt(s, sep, k)
    requires forall j :: 0 <= j < k ==> !OccursAt(s, sep, j)
    ensures Find(s, sep) == Some(k)
  {
    var r := Find(s, sep);
    assert r.Some?;
    assert !(r.value < k) && !(k < r.value);
  }

  /** When the first occurrence of sep is at k, split cuts there. */
  lemma SplitAt(s: string, sep: string, k: nat)
    requires |sep| > 0 && OccursAt(s, sep, k)
    requires forall j :: 0 <= j < k ==> !OccursAt(s, sep, j)
    ensures Split(s, sep) == [s[..k]] + Split(s[k + |sep|..], sep)
  {
    FindAt(s, sep, k);
  }

  /** `sep.join(parts)`. */
  function Join(parts: seq<string>, sep: string): string {
    if |parts| == 0 then ""
    else if |parts| == 1 then parts[0]
    else parts[0] + sep + Join(parts[1..], sep)
  }

  lemma JoinCons(a: string, tail: seq<string>, sep: string)
    requires |tail| >= 1
    ensures Join([a] + tail, sep) == a + sep + Join(tail, sep)
  {
    assert ([a] + tail)[1..] == tail;
  }

  /** Joining the pieces of a split with the same separator gives back the text. */
  lemma {:induction false} JoinSplit(s: string, sep: string)
    requires |sep| > 0
    ensures Join(Split(s, sep), sep) == s
    decreases |s|
  {
    match Find(s, sep)
    case None =>
    case Some(i) =>
      var rest := s[i + |sep|..];
      var tail := Split(rest, sep);
      assert Split(s, sep) == [s[..i]] + tail;
      JoinSplit(rest, sep);
      JoinCons(s[..i], tail, sep);
      assert s == s[..i] + sep + rest by {
        assert s[i..i + |sep|] == sep;
        assert s == s[..i] + s[i..i + |sep|] + s[i + |sep|..];
      }
  }

  /** No piece of a split contains the separator. */
  lemma {:induction false} SplitPiecesFree(s: string, sep: string)
    requires |sep| > 0
    ensures forall k, j :: 0 <= k < |Split(s, sep)| ==> !OccursAt(Split(s, sep)[k], sep, j)
    decreases |s|
  {
    match Find(s, sep)
    case None =>
    case Some(i) =>
      var rest := s[i + |sep|..];
      SplitPiecesFree(rest, sep);
      OccursInPrefix(s, sep, i);
      var parts := Split(s, sep);
      forall k, j | 0 <= k < |parts| ensures !OccursAt(parts[k], sep, j) {
        if k > 0 {
          assert parts[k] == Split(rest, sep)[k - 1];
        }
      }
  }

  /** Two occurrences of `": "` never overlap. */
  lemma ColonSpaceApart(s: string, i: int, j: int)
    ensures OccursAt(s, ": ", i) && OccursAt(s, ": ", j) && i < j ==> i + 2 <= j
  {
    if OccursAt(s, ": ", i) && OccursAt(s, ": ", j) {
      OccursChars(s, ": ", i);
      OccursChars(s, ": ", j);
      assert s[i + 1] == ' ';
      assert s[j] == ':';
    }
  }

  /** A split has one piece exactly when the separator does not occur. */
  lemma SplitOnePiece(s: string, sep: string)
    requires |sep| > 0
    ensures |Split(s, sep)| == 1 <==> Find(s, sep).None?
  {
    match Find(s, sep)
    case None =>
    case Some(i) =>
      SplitFirstCut(s, sep, i);
  }

  /** With the first `": "` at i, it occurs exactly once when the rest after it has none. */
  lemma OnceAfterFirst(s: string, i: nat)
    requires Find(s, ": ") == Some(i)
    ensures OccursOnce(s, ": ") <==> Find(s[i + 2..], ": ").None?
  {
    var sep := ": ";
    var rest := s[i + 2..];
    assert OccursAt(s, sep, i);
    match Find(rest, sep)
    case None =>
      forall j | OccursAt(s, sep, j) ensures j == i {
        ColonSpaceApart(s, i, j);
        if i + 2 <= j {
          OccursDrop(s, sep, i + 2, j);
        }
      }
    case Some(i2) =>
      OccursUndrop(s, sep, i + 2, i2);
  }

  /** When the first occurrence of sep is at i, the split has one piece more than
      the split of the rest after it. */
  lemma SplitFirstCut(s: string, sep: string, i: nat)
    requires |sep| > 0 && Find(s, sep) == Some(i)
    ensures |Split(s, sep)| == 1 + |Split(s[i + |sep|..], sep)|
  {
  }

  /** `s.split(": ")` has exactly two parts if and only if `": "` occurs in `s` exactly once. */
  lemma SplitTwoParts(s: string)
    ensures |Split(s, ": ")| == 2 <==> OccursOnce(s, ": ")
  {
    var sep := ": ";
    match Find(s, sep)
    case None =>
      SplitOnePiece(s, sep);
    case Some(i) =>
      SplitFirstCut(s, sep, i);
      SplitOnePiece(s[i + 2..], sep);
      OnceAfterFirst(s, i);
  }

  /** The first `", "` of `a + ", " + b` is the one after a when a has none. */
  lemma SplitCommaFirst(a: string, b: string)
    requires forall j :: !OccursAt(a, ", ", j)
    ensures Split(a + ", " + b, ", ") == [a] + Split(b, ", ")
  {
    var sep := ", ";
    var s := a + sep + b;
    assert s[|a|..|a| + 2] == sep;
    forall j | 0 <= j < |a| ensures !OccursAt(s, sep, j) {
      if j + 2 <= |a| {
        assert s[j..j + 2] == a[j..j + 2];
        assert !OccursAt(a, sep, j);
      } else {
        OccursChars(s, sep, j);
        assert s[j + 1] == ',';
      }
    }
    SplitAt(s, sep, |a|);
    assert s[|a| + 2..] == b;
    assert s[..|a|] == a;
  }

  /** Splitting on `", "` a `", "`-join of parts in which `", "` does not occur
      recovers the parts. */
  lemma {:induction false} SplitJoinComma(parts: seq<string>)
    requires |parts| >= 1
    requires forall k, j :: 0 <= k < |parts| ==> !OccursAt(parts[k], ", ", j)
    ensures Split(Join(parts, ", "), ", ") == parts
  {
    if |parts| == 1 {
      assert Find(parts[0], ", ").None?;
    } else {
      var tail := parts[1..];
      assert forall k :: 0 <= k < |tail| ==> tail[k] == parts[k + 1];
      SplitJoinComma(tail);
      SplitCommaFirst(parts[0], Join(tail, ", "));
      assert parts == [parts[0]] + tail;
    }
  }
}
