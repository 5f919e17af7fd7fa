/**
 * The length-carrying strings of `c-impl/include/stx/stx/string8.h`.  A
 * `String8` is its bytes; the terminating NUL that `string_init` writes is
 * not part of the string, and where the C code reads it (the scans of
 * `string_index_of`) it is modelled by `Span`.  Allocation from the arena is
 * assumed to succeed.
 */
module String8 {
  import opened Wrappers
  import DynArray

  type Str = seq<char>

  /** What `string_index_of` returns when it finds nothing: `(size_t)-1`. */
  const NotFound: nat := DynArray.SizeMax

  /** `string_concat`: the first string's bytes followed by the second's. */
  function Concat(s1: Str, s2: Str): (r: Str)
    ensures |r| == |s1| + |s2|
    ensures r[..|s1|] == s1 && r[|s1|..] == s2
  {
    s1 + s2
  }

  /**
   * `string_substring`: the bytes from `start` up to `end`, or the empty
   * string unless `start < end <= len`.
   */
  function Substring(s: Str, start: nat, end: nat): (r: Str)
    ensures |r| == if start < end <= |s| then end - start else 0
    ensures forall k :: 0 <= k < |r| ==> r[k] == s[start + k]
  {
    if end <= |s| && start < end then s[start..end] else []
  }

  /** Cutting a string at an inner point and concatenating the two substrings gives the string back. */
  lemma SubstringsConcat(s: Str, k: nat)
    requires 0 < k < |s|
    ensures Concat(Substring(s, 0, k), Substring(s, k, |s|)) == s
  {
    assert s == s[0..k] + s[k..|s|];
  }

  /** The substrings at the seam of a concatenation are its two parts. */
  lemma SubstringOfConcat(a: Str, b: Str)
    requires |a| > 0 && |b| > 0
    ensures Substring(Concat(a, b), 0, |a|) == a
    ensures Substring(Concat(a, b), |a|, |a| + |b|) == b
  {
  }

  /**
   * `string_view`: a window of `end - start` bytes from `start`, or the
   * empty string when `end < start` or the window is longer than the
   * string.  The C code does not check that the window ends inside the
   * string; a caller that passes the guard must make sure it does.
   */
  function View(s: Str, start: nat, end: nat): (r: Str)
    requires end < start || end - start > |s| || end <= |s|
    ensures end < start || end - start > |s| ==> r == []
    ensures !(end < start || end - start > |s|) ==>
              |r| == end - start && forall k :: 0 <= k < |r| ==> r[k] == s[start + k]
  {
    if end < start || end - start > |s| then [] else s[start..end]
  }

  /** A view and a copying substring of the same non-empty range agree. */
  lemma ViewIsSubstring(s: Str, start: nat, end: nat)
    requires start <= end <= |s|
    ensures View(s, start, end) == Substring(s, start, end)
  {
  }

  /** `memeql` from `k` up to `n`: every byte in the range agrees. */
  function MemEql(a: Str, b: Str, k: nat, n: nat): (r: bool)
    requires k <= n <= |a| && n <= |b|
    ensures r <==> forall m :: k <= m < n ==> a[m] == b[m]
    decreases n - k
  {
    if k == n then true else a[k] == b[k] && MemEql(a, b, k + 1, n)
  }

  /** `string_equal`: equal lengths and equal bytes. */
  function Equal(a: Str, b: Str): (r: bool)
    ensures r <==> a == b
  {
    if |a| != |b| then false else MemEql(a, b, 0, |a|)
  }

  /** `string_clone`: a fresh copy, empty for the empty string. */
  function Clone(s: Str): (r: Str)
    ensures Equal(r, s)
    ensures |s| == 0 ==> r == []
  {
    if |s| > 0 then s[..] else []
  }

  // ------------------------------------------------------------------
  // string_index_of
  // ------------------------------------------------------------------

  /**
   * A string as `string_index_of` sees it in memory: its `len` bytes, then
   * the bytes that can still be read after them.  `string_init` and string
   * literals leave a NUL there; a view is followed by the rest of the string
   * it was cut from, and a clone, which gets exactly `len` bytes, by
   * whatever the arena holds next.  The empty `{0}` string has no readable
   * byte at all, since its data pointer is NULL.
   */
  datatype Span = Span(bytes: Str, after: Str)

  /** The readable memory from the start of the string on. */
  function Memory(s: Span): Str {
    s.bytes + s.after
  }

  /** A string laid out as `string_init` or a literal leaves it: NUL-terminated. */
  function Literal(s: Str): Span {
    Span(s, "\0")
  }

  /** A NUL byte follows the string's bytes. */
  predicate Terminated(s: Span) {
    |s.after| > 0 && s.after[0] == '\0'
  }

  /** A string with no NUL byte inside it. */
  predicate NulFree(s: Str) {
    forall k :: 0 <= k < |s| ==> s[k] != '\0'
  }

  /**
   * The condition under which the search as written stops at the end of
   * the haystack: a NUL follows it, neither string holds a NUL, and an
   * empty needle is terminated too.
   */
  predicate StopsAtEnd(h: Span, n: Span) {
    && Terminated(h) && NulFree(h.bytes) && NulFree(n.bytes)
    && (|n.bytes| == 0 ==> Terminated(n))
  }

  /** `needle` occurs in `haystack` starting at index `k`. */
  predicate OccursAt(haystack: Str, needle: Str, k: nat) {
    k + |needle| <= |haystack| && haystack[k..k + |needle|] == needle
  }

  /**
   * The outer loop of `string_index_of` as written, from index `i`: at
   * each start below `len` it runs the inner matching loop.  `None` is a
   * read outside readable memory.  A reported index is where the needle's
   * bytes lie in memory, which may run past the haystack's end; when the
   * haystack is terminated it is an occurrence inside the haystack.
   */
  function ScanFrom(h: Span, n: Span, i: nat): (r: Option<nat>)
    requires i <= |Memory(h)|
    ensures r.Some? && r.value != NotFound ==>
              i <= r.value < |h.bytes| && |n.bytes| > 0 && OccursAt(Memory(h), n.bytes, r.value)
    ensures StopsAtEnd(h, n) ==>
              r.Some? && (r.value == NotFound || OccursAt(h.bytes, n.bytes, r.value))
    decreases |Memory(h)| + 1 - i, 1
  {
    if i >= |h.bytes| then Some(NotFound) else MatchFrom(h, n, i, 0)
  }

  /**
   * The inner loop of `string_index_of` as written: `j` bytes of the
   * needle have matched up to index `i`.  It compares `data[i]` of both
   * strings without looking at either length, and returns once `j` reaches
   * the needle's length.  On a mismatch the outer loop continues after
   * `i`, not after the start of the attempt, so a match that begins inside
   * a failed partial match is skipped.
   */
  function MatchFrom(h: Span, n: Span, i: nat, j: nat): (r: Option<nat>)
    requires j <= i <= |Memory(h)| && i - j < |h.bytes|
    requires j <= |Memory(n)| && Memory(h)[i - j..i] == Memory(n)[..j]
    requires |n.bytes| > 0 ==> j < |n.bytes|
    ensures r.Some? && r.value != NotFound ==>
              i - j <= r.value < |h.bytes| && |n.bytes| > 0 && OccursAt(Memory(h), n.bytes, r.value)
    ensures StopsAtEnd(h, n) && i <= |h.bytes| ==>
              r.Some? && (r.value == NotFound || OccursAt(h.bytes, n.bytes, r.value))
    decreases |Memory(h)| + 1 - i, 0
  {
    var hm, nm := Memory(h), Memory(n);
    assert StopsAtEnd(h, n) && i <= |h.bytes| ==>
             i < |hm| && j < |nm| && (hm[i] == nm[j] ==> i < |h.bytes|) by {
      if StopsAtEnd(h, n) && i <= |h.bytes| {
        MatchInside(h, n, i, j);
      }
    }
    if i >= |hm| || j >= |nm| then None
    else if hm[i] == nm[j] then
      MatchStep(hm, nm, i, j);
      if j + 1 == |n.bytes| then
        assert nm[..j + 1] == n.bytes;
        assert i < |h.bytes| ==> hm[i - j..i + 1] == h.bytes[i - j..i + 1];
        Some(i - j)
      else
        MatchFrom(h, n, i + 1, j + 1)
    else
      ScanFrom(h, n, i + 1)
  }

  /** One more agreeing byte extends the matched prefix by one. */
  lemma MatchStep(hm: Str, nm: Str, i: nat, j: nat)
    requires j <= i < |hm| && j < |nm| && hm[i - j..i] == nm[..j] && hm[i] == nm[j]
    ensures hm[i - j..i + 1] == nm[..j + 1]
  {
    assert hm[i - j..i + 1] == hm[i - j..i] + [hm[i]];
    assert nm[..j + 1] == nm[..j] + [nm[j]];
  }

  /**
   * When the search stops at the end, the inner loop never reads beyond the
   * terminators, and a byte that agrees lies inside the haystack and
   * belongs to a non-empty needle.
   */
  lemma MatchInside(h: Span, n: Span, i: nat, j: nat)
    requires StopsAtEnd(h, n) && j <= i <= |h.bytes| && i - j < |h.bytes|
    requires j <= |Memory(n)| && Memory(h)[i - j..i] == Memory(n)[..j]
    requires |n.bytes| > 0 ==> j < |n.bytes|
    ensures i < |Memory(h)| && j < |Memory(n)|
    ensures Memory(h)[i] == Memory(n)[j] ==> i < |h.bytes| && |n.bytes| > 0
  {
    var hm, nm := Memory(h), Memory(n);
    if |n.bytes| == 0 {
      assert nm[0] == '\0';
    }
    if i == |h.bytes| {
      assert hm[i] == '\0';
    }
  }

  /**
   * `string_index_of` as written.  Whatever index it reports is where the
   * needle's bytes lie in memory; it may report none although there is an
   * occurrence, and it may read past the haystack's end.
   */
  function IndexOfAsWritten(haystack: Span, needle: Span): (r: Option<nat>)
    ensures r.Some? && r.value != NotFound ==>
              r.value < |haystack.bytes| && |needle.bytes| > 0 && OccursAt(Memory(haystack), needle.bytes, r.value)
    ensures StopsAtEnd(haystack, needle) ==>
              r.Some? && (r.value == NotFound || OccursAt(haystack.bytes, needle.bytes, r.value))
  {
    ScanFrom(haystack, needle, 0)
  }

  /** "ab" occurs in "aab" at index 1, but the scan as written reports no match, so the substring view as written comes back empty. */
  lemma IndexOfMissesOverlap()
    ensures OccursAt("aab", "ab", 1)
    ensures IndexOfAsWritten(Literal("aab"), Literal("ab")) == Some(NotFound)
    ensures IndexOf("aab", "ab") == 1
    ensures SubstringViewAsWritten(Literal("aab"), Literal("ab")) == Some([])
    ensures SubstringView("aab", "ab") == "ab"
  {
    assert "aab"[1..3] == "ab";
    assert "aab"[0..2][1] != "ab"[1];
    var h, n := Literal("aab"), Literal("ab");
    assert Memory(h) == "aab\0" && Memory(n) == "ab\0";
    assert ScanFrom(h, n, 3) == Some(NotFound);
    assert MatchFrom(h, n, 2, 0) == ScanFrom(h, n, 3);
    assert MatchFrom(h, n, 1, 1) == ScanFrom(h, n, 2);
    assert MatchFrom(h, n, 0, 0) == MatchFrom(h, n, 1, 1);
  }

  /**
   * A view carries no terminator: searching the view "He" of "Hello" for
   * "Hel" reads the parent's 'l' past the view's end, reports index 0 and
   * yields the view "He", which does not hold the needle.  The corrected
   * search finds nothing.
   */
  lemma IndexOfReadsPastView()
    ensures !OccursAt("He", "Hel", 0) && IndexOf("He", "Hel") == NotFound
    ensures IndexOfAsWritten(Span("He", "llo\0"), Literal("Hel")) == Some(0)
    ensures SubstringViewAsWritten(Span("He", "llo\0"), Literal("Hel")) == Some("He")
    ensures SubstringView("He", "Hel") == []
  {
    var h, n := Span("He", "llo\0"), Literal("Hel");
    assert Memory(h) == "Hello\0" && Memory(n) == "Hel\0";
    assert Memory(h)[0..3] == "Hel";
  }

  /** The `{0}` needle has a NULL data pointer, which the scan reads at the haystack's first byte. */
  lemma IndexOfNullNeedle(haystack: Span)
    requires |haystack.bytes| > 0
    ensures IndexOfAsWritten(haystack, Span([], [])) == None
  {
    var n := Span([], []);
    assert Memory(n) == [];
    assert ScanFrom(haystack, n, 0) == MatchFrom(haystack, n, 0, 0);
  }

  /** The first occurrence of `needle` at index `i` or later. */
  function FirstFrom(h: Str, n: Str, i: nat): (r: nat)
    requires |n| > 0
    ensures r == NotFound || (i <= r < |h| && OccursAt(h, n, r))
    ensures r != NotFound ==> forall k :: i <= k < r ==> !OccursAt(h, n, k)
    ensures r == NotFound && |h| < NotFound ==> forall k :: i <= k ==> !OccursAt(h, n, k)
    decreases |h| - i
  {
    if i + |n| > |h| then NotFound
    else if h[i..i + |n|] == n then i
    else FirstFrom(h, n, i + 1)
  }

  /**
   * `string_index_of` as evidently intended: the index of the first
   * occurrence of a non-empty needle, or `(size_t)-1`.  Like the code as
   * written, it finds nothing for the empty needle.
   */
  function IndexOf(haystack: Str, needle: Str): (r: nat)
    requires |haystack| < NotFound
    ensures r == NotFound || (r < |haystack| && OccursAt(haystack, needle, r))
    ensures r != NotFound ==> forall k :: 0 <= k < r ==> !OccursAt(haystack, needle, k)
    ensures r == NotFound ==> |needle| == 0 || forall k :: 0 <= k ==> !OccursAt(haystack, needle, k)
  {
    if |needle| == 0 then NotFound else FirstFrom(haystack, needle, 0)
  }

  /** Any index the scan as written reports is at or after the first occurrence. */
  lemma IndexOfAsWrittenNotEarlier(haystack: Span, needle: Span)
    requires |haystack.bytes| < NotFound
    ensures var r := IndexOfAsWritten(haystack, needle);
            r.Some? && r.value != NotFound && OccursAt(haystack.bytes, needle.bytes, r.value) ==>
              IndexOf(haystack.bytes, needle.bytes) <= r.value
    ensures StopsAtEnd(haystack, needle) && IndexOfAsWritten(haystack, needle) != Some(NotFound) ==>
              IndexOf(haystack.bytes, needle.bytes) <= IndexOfAsWritten(haystack, needle).value
  {
  }

  /**
   * `string_substring_view`: the rest of the haystack from the first
   * occurrence of the needle on, or the empty string when there is none.
   */
  function SubstringView(haystack: Str, needle: Str): (r: Str)
    requires |haystack| < NotFound
    ensures |needle| > 0 && (exists k :: OccursAt(haystack, needle, k)) ==>
              && |r| >= |needle| && r[..|needle|] == needle
              && |r| <= |haystack| && r == haystack[|haystack| - |r|..]
              && forall k :: 0 <= k < |haystack| - |r| ==> !OccursAt(haystack, needle, k)
    ensures |needle| == 0 || (forall k :: !OccursAt(haystack, needle, k)) ==> r == []
  {
    var start := IndexOf(haystack, needle);
    if start < |haystack| then haystack[start..] else []
  }

  /**
   * `string_substring_view` as written, on the scan as written.  `None` is
   * a read outside readable memory.  What it returns is a suffix of the
   * haystack at whose start the needle's bytes lie in memory, possibly
   * running past the haystack's end; for a terminated haystack it starts
   * with the needle.  It may be empty although the needle occurs.
   */
  function SubstringViewAsWritten(haystack: Span, needle: Span): (r: Option<Str>)
    requires |haystack.bytes| <= NotFound
    ensures r.Some? && r.value != [] ==>
              && |r.value| <= |haystack.bytes| && r.value == haystack.bytes[|haystack.bytes| - |r.value|..]
              && OccursAt(Memory(haystack), needle.bytes, |haystack.bytes| - |r.value|)
    ensures StopsAtEnd(haystack, needle) ==>
              r.Some? && (r.value == [] || (|needle.bytes| <= |r.value| && r.value[..|needle.bytes|] == needle.bytes))
  {
    match IndexOfAsWritten(haystack, needle)
    case None => None
    case Some(start) =>
      if start < |haystack.bytes| then
        assert StopsAtEnd(haystack, needle) ==> haystack.bytes[start..][..|needle.bytes|] == needle.bytes by {
          if StopsAtEnd(haystack, needle) {
            assert OccursAt(haystack.bytes, needle.bytes, start);
            assert haystack.bytes[start..][..|needle.bytes|] == haystack.bytes[start..start + |needle.bytes|];
          }
        }
        Some(haystack.bytes[start..])
      else Some([])
  }

  // ------------------------------------------------------------------
  // string_split and string_join
  // ------------------------------------------------------------------

  /**
   * The reference meaning of splitting: the pieces between delimiters,
   * empty pieces included, so a string with `m` delimiters has `m + 1`
   * fields.
   */
  function Fields(s: Str, d: char): (r: seq<Str>)
    ensures |r| >= 1
  {
    if s == [] then [[]]
    else
      var rest := Fields(s[1..], d);
      if s[0] == d then [[]] + rest else [[s[0]] + rest[0]] + rest[1..]
  }

  /** No field contains the delimiter. */
  lemma {:induction false} FieldsFreeOfDelimiter(s: Str, d: char)
    ensures forall k :: 0 <= k < |Fields(s, d)| ==> d !in Fields(s, d)[k]
  {
    if s != [] {
      FieldsFreeOfDelimiter(s[1..], d);
    }
  }

  /** A string without the delimiter is a single field. */
  lemma {:induction false} FieldsOfPlain(s: Str, d: char)
    requires d !in s
    ensures Fields(s, d) == [s]
  {
    if s != [] {
      FieldsOfPlain(s[1..], d);
      assert [s[0]] + s[1..] == s;
    }
  }

  /** The first delimiter, at `k`, closes the first field. */
  lemma {:induction false} FieldsAtDelimiter(s: Str, d: char, k: nat)
    requires k < |s| && s[k] == d && d !in s[..k]
    ensures Fields(s, d) == [s[..k]] + Fields(s[k + 1..], d)
  {
    if k > 0 {
      assert s[1..][..k - 1] == s[1..k];
      FieldsAtDelimiter(s[1..], d, k - 1);
      assert s[1..][k..] == s[k + 1..];
      assert [s[0]] + s[1..k] == s[..k];
    }
  }

  /**
   * The loop of `string_split` from index `i`, where the current segment
   * began at `start`: each delimiter appends the segment before it,
   * allocating the array at the first one.  Returns the array (`None`
   * while it is still NULL) and where the last segment begins.
   */
  function SplitLoop(s: Str, d: char, i: nat, start: nat, arr: Option<seq<Str>>): (r: (Option<seq<Str>>, nat))
    requires start <= i <= |s|
    ensures start <= r.1 <= |s|
    ensures r.0.Some? <==> arr.Some? || d in s[i..]
    ensures d !in s[i..] ==> r == (arr, start)
    ensures r.1 == start || s[r.1 - 1] == d
    ensures d !in s[start..i] ==> d !in s[r.1..]
    decreases |s| - i
  {
    if i == |s| then (arr, start)
    else if s[i] != d then
      assert s[i..] == [s[i]] + s[i + 1..];
      assert s[start..i + 1] == s[start..i] + [s[i]];
      SplitLoop(s, d, i + 1, start, arr)
    else
      SplitLoop(s, d, i + 1, i + 1, Some(arr.GetOr([]) + [Substring(s, start, i)]))
  }

  /** What the loop leaves from index `i`, followed by the whole last segment, is the fields of `s` from `start`. */
  predicate LoopGivesFields(s: Str, d: char, i: nat, start: nat, arr: Option<seq<Str>>)
    requires start <= i <= |s|
  {
    var r := SplitLoop(s, d, i, start, arr);
    r.0.GetOr([]) + [s[r.1..]] == arr.GetOr([]) + Fields(s[start..], d)
  }

  /** What the loop leaves, followed by the whole last segment, is the fields of the scanned part. */
  lemma {:induction false} SplitLoopFields(s: Str, d: char, i: nat, start: nat, arr: Option<seq<Str>>)
    requires start <= i <= |s| && d !in s[start..i]
    ensures LoopGivesFields(s, d, i, start, arr)
    decreases |s| - i
  {
    if i == |s| {
      assert s[start..] == s[start..i];
      FieldsOfPlain(s[start..], d);
    } else if s[i] != d {
      assert s[start..i + 1] == s[start..i] + [s[i]];
      SplitLoopFields(s, d, i + 1, start, arr);
      SplitLoopSkips(s, d, i, start, arr);
    } else {
      var next := Some(arr.GetOr([]) + [s[start..i]]);
      assert s[i + 1..i + 1] == [];
      SplitLoopFields(s, d, i + 1, i + 1, next);
      SplitLoopCuts(s, d, i, start, arr);
    }
  }

  /** A byte other than the delimiter only extends the current segment. */
  lemma SplitLoopSkips(s: Str, d: char, i: nat, start: nat, arr: Option<seq<Str>>)
    requires start <= i < |s| && s[i] != d
    requires LoopGivesFields(s, d, i + 1, start, arr)
    ensures LoopGivesFields(s, d, i, start, arr)
  {
    assert SplitLoop(s, d, i, start, arr) == SplitLoop(s, d, i + 1, start, arr);
  }

  /** At a delimiter the loop appends the segment before it and starts the next one just after it. */
  lemma SplitLoopAtDelimiter(s: Str, d: char, i: nat, start: nat, arr: Option<seq<Str>>)
    requires start <= i < |s| && s[i] == d
    ensures SplitLoop(s, d, i, start, arr) == SplitLoop(s, d, i + 1, i + 1, Some(arr.GetOr([]) + [s[start..i]]))
  {
    assert Substring(s, start, i) == s[start..i];
  }

  /** A delimiter closes the current segment, which then heads the fields. */
  lemma SplitLoopCuts(s: Str, d: char, i: nat, start: nat, arr: Option<seq<Str>>)
    requires start <= i < |s| && s[i] == d && d !in s[start..i]
    requires LoopGivesFields(s, d, i + 1, i + 1, Some(arr.GetOr([]) + [s[start..i]]))
    ensures LoopGivesFields(s, d, i, start, arr)
  {
    var before, seg := arr.GetOr([]), s[start..i];
    var r := SplitLoop(s, d, i + 1, i + 1, Some(before + [seg]));
    var got := r.0.GetOr([]) + [s[r.1..]];
    assert got == before + [seg] + Fields(s[i + 1..], d);
    FieldsOfSuffixAtDelimiter(s, d, start, i);
    Regroup(got, before, seg, Fields(s[i + 1..], d));
    SplitLoopAtDelimiter(s, d, i, start, arr);
  }

  /** Appending a segment and then the rest is appending the segment followed by the rest. */
  lemma Regroup(got: seq<Str>, before: seq<Str>, seg: Str, rest: seq<Str>)
    requires got == before + [seg] + rest
    ensures got == before + ([seg] + rest)
  {
  }

  /** `FieldsAtDelimiter` for the part of `s` from `start`, whose first delimiter is at `i`. */
  lemma FieldsOfSuffixAtDelimiter(s: Str, d: char, start: nat, i: nat)
    requires start <= i < |s| && s[i] == d && d !in s[start..i]
    ensures Fields(s[start..], d) == [s[start..i]] + Fields(s[i + 1..], d)
  {
    var t := s[start..];
    assert t[..i - start] == s[start..i];
    assert t[i - start + 1..] == s[i + 1..];
    FieldsAtDelimiter(t, d, i - start);
  }

  /** Dropping the last of a list of delimiter-free pieces leaves delimiter-free pieces. */
  lemma FreeOfDelimiterPrefix(xs: seq<Str>, y: Str, d: char)
    requires forall k :: 0 <= k < |xs + [y]| ==> d !in (xs + [y])[k]
    ensures forall k :: 0 <= k < |xs| ==> d !in xs[k]
  {
    forall k | 0 <= k < |xs|
      ensures d !in xs[k]
    {
      assert xs[k] == (xs + [y])[k];
    }
  }

  /**
   * What `string_split` as written comes to: the array it returns (`None`
   * for NULL), or a crash from appending the last segment to an array that
   * was never allocated (`array_append` reads the header in front of NULL).
   */
  datatype Segmented = Returned(arr: Option<seq<Str>>) | AppendedToNull

  /**
   * `string_split` as written: the array is allocated at the first
   * delimiter, and the last segment is kept only when `start + 1 < len`,
   * so a final segment of one byte is lost.  Without a delimiter a string
   * of two or more bytes has its last segment appended to NULL.
   */
  function SplitAsWritten(s: Str, d: char): (r: Segmented)
    ensures r.AppendedToNull? <==> d !in s && |s| >= 2
    ensures r.Returned? ==> (r.arr.Some? <==> d in s)
  {
    var (arr, start) := SplitLoop(s, d, 0, 0, None);
    assert s[0..] == s;
    if start + 1 < |s| then
      if arr.None? then AppendedToNull else Returned(Some(arr.value + [Substring(s, start, |s|)]))
    else Returned(arr)
  }

  /** Splitting "a b" at the space as written yields only "a". */
  lemma SplitDropsOneByteTail()
    ensures Fields("a b", ' ') == ["a", "b"]
    ensures SplitAsWritten("a b", ' ') == Returned(Some(["a"]))
  {
    var s := "a b";
    assert s[..1] == "a" && s[2..] == "b" && ' ' !in s[..1] && ' ' !in s[2..];
    FieldsAtDelimiter(s, ' ', 1);
    FieldsOfPlain(s[2..], ' ');
    assert Substring(s, 0, 1) == s[0..1] == "a";
    var none: Option<seq<Str>> := None;
    var x := Some(none.GetOr([]) + [Substring(s, 0, 1)]);
    assert none.GetOr([]) + ["a"] == ["a"];
    assert x == Some(["a"]);
    assert SplitLoop(s, ' ', 2, 2, x) == (x, 2);
    assert SplitLoop(s, ' ', 1, 0, None) == SplitLoop(s, ' ', 2, 2, x);
  }

  /** Splitting "Hello" at a space: the code as written appends to NULL; the corrected split returns the one field "Hello". */
  lemma SplitWithoutDelimiterCrashes()
    ensures SplitAsWritten("Hello", ' ') == AppendedToNull
    ensures Split("Hello", ' ') == Some(["Hello"])
  {
    assert ' ' !in "Hello";
    FieldsOfPlain("Hello", ' ');
  }

  /**
   * `string_split` as evidently intended: the array is allocated before
   * any append, and the last segment is kept whenever it is non-empty
   * (`start < len`).  Only the empty string yields NULL.
   */
  function Split(s: Str, d: char): (r: Option<seq<Str>>)
    ensures r.Some? <==> |s| > 0
    ensures r.Some? ==> forall k :: 0 <= k < |r.value| ==> d !in r.value[k]
    ensures r.Some? && s[|s| - 1] != d ==> r.value == Fields(s, d)
    ensures r.Some? && s[|s| - 1] == d ==> r.value + [[]] == Fields(s, d)
  {
    var (arr, start) := SplitLoop(s, d, 0, 0, None);
    assert s[0..] == s && s[0..0] == [];
    SplitLoopFields(s, d, 0, 0, None);
    FieldsFreeOfDelimiter(s, d);
    if start < |s| then
      assert Substring(s, start, |s|) == s[start..];
      assert s[|s| - 1] == s[start..][|s| - 1 - start];
      Some(arr.GetOr([]) + [Substring(s, start, |s|)])
    else if |s| > 0 then
      assert s[start..] == [];
      FreeOfDelimiterPrefix(arr.value, [], d);
      arr
    else
      arr
  }

  /**
   * The two versions of `string_split` compared.  With the delimiter present
   * they differ exactly when the last segment is a single byte; without it,
   * a string of at most one byte gives NULL as written, and a longer one
   * appends to NULL.
   */
  lemma SplitAsWrittenAgrees(s: Str, d: char)
    ensures d in s ==>
              var fs := Fields(s, d);
              |fs[|fs| - 1]| != 1 <==> SplitAsWritten(s, d) == Returned(Split(s, d))
    ensures d !in s && |s| <= 1 ==> SplitAsWritten(s, d) == Returned(None)
  {
    assert s[0..] == s;
    if d in s {
      SplitAgreesWithDelimiter(s, d);
    }
  }

  lemma SplitAgreesWithDelimiter(s: Str, d: char)
    requires d in s
    ensures var fs := Fields(s, d);
            |fs[|fs| - 1]| != 1 <==> SplitAsWritten(s, d) == Returned(Split(s, d))
  {
    var (arr, start) := SplitLoop(s, d, 0, 0, None);
    var fs := Fields(s, d);
    assert arr.Some? && fs[|fs| - 1] == s[start..] by {
      assert s[0..] == s && s[0..0] == [];
      SplitLoopFields(s, d, 0, 0, None);
      assert fs == arr.value + [s[start..]];
    }
    var tail := Substring(s, start, |s|);
    if start + 1 < |s| {
      assert SplitAsWritten(s, d) == Returned(Some(arr.value + [tail]));
      assert Split(s, d) == Some(arr.value + [tail]);
    } else if start + 1 == |s| {
      assert SplitAsWritten(s, d) == Returned(arr);
      assert Split(s, d) == Some(arr.value + [tail]);
      assert |arr.value + [tail]| != |arr.value|;
    } else {
      assert SplitAsWritten(s, d) == Returned(arr);
      assert Split(s, d) == arr;
    }
  }

  /**
   * `string_join`'s written bytes: the segments in order with the join
   * byte between neighbours.
   */
  function Join(segs: seq<Str>, d: char): (r: Str)
    ensures |segs| > 0 ==> |r| == TotalLength(segs) + |segs| - 1
    ensures |segs| > 0 ==> r[..|segs[0]|] == segs[0]
  {
    if |segs| == 0 then []
    else if |segs| == 1 then segs[0]
    else segs[0] + [d] + Join(segs[1..], d)
  }

  /** The sum of the segments' lengths. */
  function TotalLength(segs: seq<Str>): nat {
    if |segs| == 0 then 0 else |segs[0]| + TotalLength(segs[1..])
  }

  /**
   * `string_join` as written: it reserves one byte per segment on top of
   * the segment bytes and returns that total as the length, so the result
   * ends with one byte the loop never writes (`unwritten`).
   */
  function JoinAsWritten(segs: seq<Str>, d: char, unwritten: char): (r: Str)
    ensures |r| == TotalLength(segs) + |segs|
    ensures |segs| > 0 ==> r[..|r| - 1] == Join(segs, d)
  {
    if |segs| == 0 then [] else Join(segs, d) + [unwritten]
  }

  /** Joining the fields of a string at the delimiter gives the string back. */
  lemma {:induction false} JoinFields(s: Str, d: char)
    ensures Join(Fields(s, d), d) == s
  {
    if s != [] {
      var rest := Fields(s[1..], d);
      JoinFields(s[1..], d);
      if s[0] == d {
        assert Fields(s, d)[1..] == rest;
        assert [d] + s[1..] == s;
      } else {
        var f := Fields(s, d);
        assert f[1..] == rest[1..];
        if |rest| > 1 {
          assert Join(rest, d) == rest[0] + [d] + Join(rest[1..], d);
          assert Join(f, d) == [s[0]] + rest[0] + [d] + Join(rest[1..], d);
        }
        assert [s[0]] + s[1..] == s;
      }
    }
  }

  /** Splitting a joined list of delimiter-free segments gives the list back. */
  lemma {:induction false} FieldsOfJoin(segs: seq<Str>, d: char)
    requires |segs| > 0
    requires forall k :: 0 <= k < |segs| ==> d !in segs[k]
    ensures Fields(Join(segs, d), d) == segs
    decreases |segs|
  {
    if |segs| == 1 {
      FieldsOfPlain(segs[0], d);
    } else {
      var j := Join(segs, d);
      FieldsOfJoin(segs[1..], d);
      assert j[..|segs[0]|] == segs[0];
      assert j[|segs[0]|] == d;
      assert j[|segs[0]| + 1..] == Join(segs[1..], d);
      FieldsAtDelimiter(j, d, |segs[0]|);
    }
  }

  /** Splitting and then joining a string that does not end with the delimiter gives the string back. */
  lemma SplitJoinRoundTrip(s: Str, d: char)
    requires |s| > 0 && s[|s| - 1] != d
    ensures Split(s, d).Some? && Join(Split(s, d).value, d) == s
  {
    JoinFields(s, d);
  }

  /** Two delimiter-free pieces around one delimiter are exactly the two fields. */
  lemma FieldsOfTwo(x: Str, y: Str, d: char)
    requires d !in x && d !in y
    ensures Fields(x + [d] + y, d) == [x, y]
  {
    var s := x + [d] + y;
    assert s[..|x|] == x && s[|x|] == d && s[|x| + 1..] == y;
    FieldsAtDelimiter(s, d, |x|);
    FieldsOfPlain(y, d);
  }

  /** Splitting such a string, with a non-empty second piece, gives both pieces. */
  lemma SplitOfTwo(x: Str, y: Str, d: char)
    requires d !in x && d !in y && |y| > 0
    ensures Split(x + [d] + y, d) == Some([x, y])
  {
    var s := x + [d] + y;
    assert s[|x|] == d && s[|s| - 1] == y[|y| - 1];
    FieldsOfTwo(x, y, d);
  }

  /** The code as written agrees on it too unless the second piece is a single byte. */
  lemma SplitAsWrittenOfTwo(x: Str, y: Str, d: char)
    requires d !in x && d !in y && |y| > 1
    ensures SplitAsWritten(x + [d] + y, d) == Returned(Some([x, y]))
  {
    var s := x + [d] + y;
    assert s[|x|] == d;
    FieldsOfTwo(x, y, d);
    SplitAsWrittenAgrees(s, d);
    SplitOfTwo(x, y, d);
  }

  /** The test string is "Hello" and "World!" around a space. */
  lemma HelloWorldPieces()
    ensures "Hello World!" == "Hello" + [' '] + "World!"
    ensures ' ' !in "Hello" && ' ' !in "World!"
  {
  }

  /** The string test: "Hello" and " World!" concatenate to "Hello World!". */
  lemma HelloWorldConcat()
    ensures Concat("Hello", " World!") == "Hello World!"
  {
  }

  /** The string test, continued: "Hello World!" splits at the space into "Hello" and "World!". */
  lemma HelloWorldSplit()
    ensures Fields("Hello World!", ' ') == ["Hello", "World!"]
    ensures Split("Hello World!", ' ') == Some(["Hello", "World!"])
  {
    HelloWorldPieces();
    FieldsOfTwo("Hello", "World!", ' ');
    SplitOfTwo("Hello", "World!", ' ');
  }

  /** The test string splits the same way with the code as written. */
  lemma HelloWorldSplitAsWritten()
    ensures SplitAsWritten("Hello World!", ' ') == Returned(Some(["Hello", "World!"]))
  {
    HelloWorldPieces();
    SplitAsWrittenOfTwo("Hello", "World!", ' ');
  }

  /** The string test, continued: joining "Hello" and "World!" with a space gives "Hello World!" back. */
  lemma HelloWorldJoin()
    ensures Join(["Hello", "World!"], ' ') == "Hello World!"
  {
    assert ["Hello", "World!"][1..] == ["World!"];
  }

  /** The remaining string tests: a view found by `string_substring_view`, two windows, equality and a clone. */
  lemma StringTestViews()
    ensures SubstringView("Hello", "el") == "ello"
    ensures View("Hello", 2, 5) == "llo"
    ensures View(" World!", 1, 7) == "World!"
    ensures Equal("Hello", "Hello") && Equal("Hello", Clone("Hello"))
  {
    assert "Hello"[0..2] != "el" by { assert "Hello"[0..2][0] != "el"[0]; }
    assert "Hello"[1..3] == "el";
  }

  /** The test's substring view, on the search as written: "el" is found at 1 in "Hello". */
  lemma StringTestViewAsWritten()
    ensures IndexOfAsWritten(Literal("Hello"), Literal("el")) == Some(1)
    ensures SubstringViewAsWritten(Literal("Hello"), Literal("el")) == Some("ello")
  {
    var h, n := Literal("Hello"), Literal("el");
    assert Memory(h) == "Hello\0" && Memory(n) == "el\0";
    assert MatchFrom(h, n, 2, 1) == Some(1);
    assert MatchFrom(h, n, 1, 0) == MatchFrom(h, n, 2, 1);
    assert ScanFrom(h, n, 0) == ScanFrom(h, n, 1);
  }

  /** The joined test output carries one extra byte beyond "Hello World!". */
  lemma JoinAsWrittenOneTooLong(unwritten: char)
    ensures |JoinAsWritten(["Hello", "World!"], ' ', unwritten)| == |"Hello World!"| + 1
  {
  }
}
