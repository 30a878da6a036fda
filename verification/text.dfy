/** String operations of Python's `str` that the downloader relies on:
    `split(sep)`, `sep.join(parts)`, `strip()` and character filtering.
    Strings are sequences of code points, as in Python 3. */
module Text {

  /** Python's `str.isspace()`: the characters `strip()` removes. */
  predicate IsSpace(c: char) {
    || c == ' ' || ('\t' <= c <= '\r')
    || ('\U{1C}' <= c <= '\U{1F}')
    || c == '\U{85}' || c == '\U{A0}' || c == '\U{1680}'
    || ('\U{2000}' <= c <= '\U{200A}')
    || c == '\U{2028}' || c == '\U{2029}' || c == '\U{202F}'
    || c == '\U{205F}' || c == '\U{3000}'
  }

  /** `s.split(sep)` for a one-character separator: the maximal separator-free
      pieces, empty pieces included, so there is always at least one. */
  function Split(s: string, sep: char): (parts: seq<string>)
    ensures |parts| >= 1
    ensures forall i :: 0 <= i < |parts| ==> sep !in parts[i]
    decreases |s|
  {
    if |s| == 0 then [""]
    else
      var rest := Split(s[1..], sep);
      if s[0] == sep then [""] + rest
      else [[s[0]] + rest[0]] + rest[1..]
  }

  /** `sep.join(parts)`. */
  function Join(parts: seq<string>, sep: char): string
    decreases |parts|
  {
    if |parts| == 0 then ""
    else if |parts| == 1 then parts[0]
    else parts[0] + [sep] + Join(parts[1..], sep)
  }

  /** The non-empty parts, in order (the `if s` of a comprehension). */
  function NonEmpty(parts: seq<string>): (r: seq<string>)
    ensures forall i :: 0 <= i < |r| ==> r[i] != [] && r[i] in parts
    ensures |r| <= |parts|
    decreases |parts|
  {
    if |parts| == 0 then []
    else if parts[0] == [] then NonEmpty(parts[1..])
    else [parts[0]] + NonEmpty(parts[1..])
  }

  /** How many whitespace characters `s` starts with. */
  function LeadingSpaces(s: string): (n: nat)
    ensures n <= |s|
    ensures forall k :: 0 <= k < n ==> IsSpace(s[k])
    ensures n < |s| ==> !IsSpace(s[n])
    decreases |s|
  {
    if |s| > 0 && IsSpace(s[0]) then 1 + LeadingSpaces(s[1..]) else 0
  }

  /** How many whitespace characters `s` ends with. */
  function TrailingSpaces(s: string): (n: nat)
    ensures n <= |s|
    ensures forall k :: |s| - n <= k < |s| ==> IsSpace(s[k])
    ensures n < |s| ==> !IsSpace(s[|s| - n - 1])
    decreases |s|
  {
    if |s| > 0 && IsSpace(s[|s| - 1]) then 1 + TrailingSpaces(s[..|s| - 1]) else 0
  }

  /** `str.lstrip()`. */
  function StripLeft(s: string): string {
    s[LeadingSpaces(s)..]
  }

  /** `str.rstrip()`. */
  function StripRight(s: string): string {
    s[..|s| - TrailingSpaces(s)]
  }

  /** `str.strip()`. */
  function Strip(s: string): string {
    StripRight(StripLeft(s))
  }

  /** Where `strip()` starts cutting at the end: the stripped string is
      `s[LeadingSpaces(s)..StripEnd(s)]`. */
  function StripEnd(s: string): (j: nat)
    ensures LeadingSpaces(s) <= j <= |s|
  {
    |s| - TrailingSpaces(StripLeft(s))
  }

  /** `''.join(c for c in s if keep(c))`. */
  function Filter(s: string, keep: char -> bool): (r: string)
    ensures |r| <= |s|
    ensures forall i :: 0 <= i < |r| ==> keep(r[i]) && r[i] in s
    decreases |s|
  {
    if |s| == 0 then ""
    else if keep(s[0]) then [s[0]] + Filter(s[1..], keep)
    else Filter(s[1..], keep)
  }

  /** The last element of a non-empty sequence (Python's `xs[-1]`). */
  function Last<T>(xs: seq<T>): T
    requires |xs| > 0
  {
    xs[|xs| - 1]
  }

  // ---------------------------------------------------------------------------
  // Split and Join are inverse to each other.

  /** Joining the pieces of a split gives back the original string. */
  lemma {:induction false} JoinSplit(s: string, sep: char)
    ensures Join(Split(s, sep), sep) == s
    decreases |s|
  {
    if |s| > 0 {
      var rest := Split(s[1..], sep);
      JoinSplit(s[1..], sep);
      if s[0] == sep {
        assert Split(s, sep) == [""] + rest;
        assert ([""] + rest)[1..] == rest;
        assert s == [] + [sep] + s[1..];
      } else {
        var parts := Split(s, sep);
        assert parts == [[s[0]] + rest[0]] + rest[1..];
        if |rest| == 1 {
          assert Join(rest, sep) == rest[0];
        } else {
          assert parts[1..] == rest[1..];
          assert Join(rest, sep) == rest[0] + [sep] + Join(rest[1..], sep);
        }
      }
    }
  }

  /** Splitting a join of separator-free parts gives back the parts. */
  lemma {:induction false} SplitJoin(parts: seq<string>, sep: char)
    requires |parts| >= 1
    requires forall i :: 0 <= i < |parts| ==> sep !in parts[i]
    ensures Split(Join(parts, sep), sep) == parts
    decreases |parts|
  {
    if |parts| == 1 {
      SplitFree(parts[0], sep);
    } else {
      SplitJoin(parts[1..], sep);
      SplitFree(parts[0], sep);
      SplitAppend(parts[0], Join(parts[1..], sep), sep);
      assert [parts[0]] + parts[1..] == parts;
    }
  }

  /** A separator-free string splits into itself. */
  lemma {:induction false} SplitFree(s: string, sep: char)
    requires sep !in s
    ensures Split(s, sep) == [s]
    decreases |s|
  {
    if |s| > 0 {
      assert sep !in s[1..] by {
        forall c | c in s[1..] ensures c != sep {
          var i :| 0 <= i < |s[1..]| && s[1..][i] == c;
          assert s[i + 1] == c;
        }
      }
      SplitFree(s[1..], sep);
      assert [s[0]] + s[1..] == s;
    }
  }

  /** A separator splits the string into the pieces of each side. */
  lemma {:induction false} SplitAppend(a: string, b: string, sep: char)
    ensures Split(a + [sep] + b, sep) == Split(a, sep) + Split(b, sep)
    decreases |a|
  {
    var s := a + [sep] + b;
    var sb := Split(b, sep);
    if |a| == 0 {
      assert s[1..] == b by {
        assert s == [sep] + b;
      }
    } else {
      var ra := Split(a[1..], sep);
      assert Split(s[1..], sep) == ra + sb by {
        assert s[1..] == a[1..] + [sep] + b;
        SplitAppend(a[1..], b, sep);
      }
      assert s[0] == a[0];
      if a[0] != sep {
        PrependToFirst(a[0], ra, sb);
      }
    }
  }

  /** Putting a character in front of the first piece commutes with
      appending more pieces. */
  lemma PrependToFirst(c: char, ra: seq<string>, sb: seq<string>)
    requires |ra| >= 1
    ensures [[c] + (ra + sb)[0]] + (ra + sb)[1..] == ([[c] + ra[0]] + ra[1..]) + sb
  {
    assert (ra + sb)[0] == ra[0];
    assert (ra + sb)[1..] == ra[1..] + sb;
  }

  /** Appending a part to a join inserts one separator. */
  lemma {:induction false} JoinSnoc(parts: seq<string>, x: string, sep: char)
    requires |parts| >= 1
    ensures Join(parts + [x], sep) == Join(parts, sep) + [sep] + x
    decreases |parts|
  {
    if |parts| == 1 {
      assert parts + [x] == [parts[0], x];
      assert [parts[0], x][1..] == [x];
    } else {
      JoinSnoc(parts[1..], x, sep);
      assert (parts + [x])[1..] == parts[1..] + [x];
    }
  }

  /** The last piece of a split is the text after the last separator, or the
      whole string when there is no separator. */
  lemma LastPieceSuffix(s: string, sep: char)
    ensures var p := Last(Split(s, sep));
      && |p| <= |s| && p == s[|s| - |p|..]
      && (|p| < |s| ==> s[|s| - |p| - 1] == sep)
  {
    var parts := Split(s, sep);
    JoinSplit(s, sep);
    if |parts| > 1 {
      var init := parts[..|parts| - 1];
      assert parts == init + [Last(parts)];
      JoinSnoc(init, Last(parts), sep);
    }
  }

  /** The first piece of a split starts with the string's first character
      when that character is not the separator. */
  lemma FirstPiece(s: string, sep: char)
    requires |s| > 0 && s[0] != sep
    ensures Split(s, sep)[0] != [] && Split(s, sep)[0][0] == s[0]
  {
  }

  /** Appending a non-separator character extends the last piece. */
  lemma {:induction false} SplitSnoc(a: string, x: char, sep: char)
    requires x != sep
    ensures var p := Split(a, sep);
      Split(a + [x], sep) == p[..|p| - 1] + [Last(p) + [x]]
    decreases |a|
  {
    if |a| == 0 {
      assert a + [x] == [x];
      assert [x][1..] == "";
      assert Split([x][1..], sep) == [""];
      assert Split([x], sep) == [[x] + ""] + [""][1..];
      assert Split(a, sep) == [""];
      assert [x] + "" == "" + [x];
    } else {
      SplitSnoc(a[1..], x, sep);
      assert (a + [x])[1..] == a[1..] + [x];
      assert (a + [x])[0] == a[0];
      var r := Split(a[1..], sep);
      var rx := Split(a[1..] + [x], sep);
      assert rx == r[..|r| - 1] + [Last(r) + [x]];
      if a[0] == sep {
        SnocSepHead(r, rx, Last(r) + [x]);
      } else {
        SnocCharHead(a[0], r, rx, x);
      }
    }
  }

  lemma SnocSepHead(r: seq<string>, rx: seq<string>, last: string)
    requires |r| >= 1 && rx == r[..|r| - 1] + [last]
    ensures var p := [""] + r; [""] + rx == p[..|p| - 1] + [last]
  {
    var p := [""] + r;
    assert p[..|p| - 1] == [""] + r[..|r| - 1];
  }

  lemma SnocCharHead(c: char, r: seq<string>, rx: seq<string>, x: char)
    requires |r| >= 1 && rx == r[..|r| - 1] + [Last(r) + [x]]
    ensures var p := [[c] + r[0]] + r[1..];
      [[c] + rx[0]] + rx[1..] == p[..|p| - 1] + [Last(p) + [x]]
  {
    var p := [[c] + r[0]] + r[1..];
    if |r| == 1 {
      assert rx == [r[0] + [x]];
      assert [c] + (r[0] + [x]) == ([c] + r[0]) + [x];
    } else {
      assert rx[0] == r[0];
      assert rx[1..] == r[1..][..|r| - 2] + [Last(r) + [x]];
      assert p[..|p| - 1] == [[c] + r[0]] + r[1..][..|r| - 2];
    }
  }

  /** The last piece of a split ends with the string's last character when
      that character is not the separator. */
  lemma LastPiece(s: string, sep: char)
    requires |s| > 0 && s[|s| - 1] != sep
    ensures var p := Last(Split(s, sep)); p != [] && p[|p| - 1] == s[|s| - 1]
  {
    SplitSnoc(s[..|s| - 1], s[|s| - 1], sep);
    assert s[..|s| - 1] + [s[|s| - 1]] == s;
  }

  // ---------------------------------------------------------------------------
  // NonEmpty and Join.

  lemma {:induction false} NonEmptyAppend(a: seq<string>, b: seq<string>)
    ensures NonEmpty(a + b) == NonEmpty(a) + NonEmpty(b)
    decreases |a|
  {
    if |a| > 0 {
      NonEmptyAppend(a[1..], b);
      assert (a + b)[1..] == a[1..] + b;
    } else {
      assert a + b == b;
    }
  }

  /** Dropping empty parts keeps every non-empty part, in order. */
  lemma {:induction false} NonEmptyKeeps(parts: seq<string>)
    requires forall i :: 0 <= i < |parts| ==> parts[i] != []
    ensures NonEmpty(parts) == parts
    decreases |parts|
  {
    if |parts| > 0 {
      NonEmptyKeeps(parts[1..]);
    }
  }

  /** The first part, when non-empty, is the first non-empty part. */
  lemma NonEmptyFirst(parts: seq<string>)
    requires |parts| > 0 && parts[0] != []
    ensures |NonEmpty(parts)| > 0 && NonEmpty(parts)[0] == parts[0]
  {
  }

  /** The last part, when non-empty, is the last non-empty part. */
  lemma NonEmptyLast(parts: seq<string>)
    requires |parts| > 0 && Last(parts) != []
    ensures |NonEmpty(parts)| > 0 && Last(NonEmpty(parts)) == Last(parts)
  {
    var n := |parts|;
    NonEmptyAppend(parts[..n - 1], [parts[n - 1]]);
    assert parts[..n - 1] + [parts[n - 1]] == parts;
    assert NonEmpty([parts[n - 1]]) == [parts[n - 1]] by {
      assert [parts[n - 1]][1..] == [];
    }
  }

  lemma {:induction false} JoinFirst(parts: seq<string>, sep: char)
    requires |parts| > 0 && parts[0] != []
    ensures |Join(parts, sep)| > 0 && Join(parts, sep)[0] == parts[0][0]
  {
  }

  lemma {:induction false} JoinLast(parts: seq<string>, sep: char)
    requires |parts| > 0 && Last(parts) != []
    ensures var j := Join(parts, sep); |j| > 0 && j[|j| - 1] == Last(Last(parts))
    decreases |parts|
  {
    if |parts| > 1 {
      JoinLast(parts[1..], sep);
    }
  }

  // ---------------------------------------------------------------------------
  // Filter is the homomorphism that keeps exactly the wanted characters.

  /** Filtering a concatenation filters each part, keeping their order. */
  lemma {:induction false} FilterAppend(a: string, b: string, keep: char -> bool)
    ensures Filter(a + b, keep) == Filter(a, keep) + Filter(b, keep)
    decreases |a|
  {
    if |a| == 0 {
      assert a + b == b;
    } else {
      FilterAppend(a[1..], b, keep);
      assert (a + b)[1..] == a[1..] + b;
    }
  }

  /** A string made only of wanted characters passes the filter unchanged. */
  lemma {:induction false} FilterAllKept(s: string, keep: char -> bool)
    requires forall i :: 0 <= i < |s| ==> keep(s[i])
    ensures Filter(s, keep) == s
    decreases |s|
  {
    if |s| > 0 {
      FilterAllKept(s[1..], keep);
    }
  }

  /** Filtering twice is filtering once. */
  lemma {:induction false} FilterIdempotent(s: string, keep: char -> bool)
    ensures Filter(Filter(s, keep), keep) == Filter(s, keep)
    decreases |s|
  {
    if |s| > 0 {
      FilterIdempotent(s[1..], keep);
    }
  }

  // ---------------------------------------------------------------------------
  // What strip() keeps.

  /** `strip()` keeps the slice between the leading and the trailing
      whitespace, and cuts off only whitespace; the slice starts and ends
      with a non-space. */
  lemma StripSlice(s: string)
    ensures var i, j := LeadingSpaces(s), StripEnd(s);
      && Strip(s) == s[i..j]
      && (forall k :: 0 <= k < i ==> IsSpace(s[k]))
      && (forall k :: j <= k < |s| ==> IsSpace(s[k]))
      && (i < j ==> !IsSpace(s[i]) && !IsSpace(s[j - 1]))
  {
    StripIsSlice(s);
    StripCutsSpaces(s);
    StripSliceEnds(s);
  }

  lemma StripIsSlice(s: string)
    ensures Strip(s) == s[LeadingSpaces(s)..StripEnd(s)]
  {
    var i := LeadingSpaces(s);
    var l := s[i..];
    var m := TrailingSpaces(l);
    assert Strip(s) == s[i..|s| - m] by {
      assert l[..|l| - m] == s[i..|s| - m];
    }
    assert StripEnd(s) == |s| - m;
  }

  lemma StripCutsSpaces(s: string)
    ensures forall k :: StripEnd(s) <= k < |s| ==> IsSpace(s[k])
  {
    var i := LeadingSpaces(s);
    var m := TrailingSpaces(s[i..]);
    assert StripEnd(s) == |s| - m;
    SuffixSpaces(s, i, m);
  }

  lemma StripSliceEnds(s: string)
    ensures LeadingSpaces(s) < StripEnd(s) ==> !IsSpace(s[StripEnd(s) - 1])
  {
    var i := LeadingSpaces(s);
    var l := s[i..];
    var m := TrailingSpaces(l);
    assert StripEnd(s) == |s| - m;
    if i < |s| - m {
      assert s[|s| - m - 1] == l[|l| - m - 1];
    }
  }

  /** Trailing whitespace of a suffix is trailing whitespace of the whole. */
  lemma SuffixSpaces(s: string, i: nat, m: nat)
    requires i <= |s| && m <= |s| - i
    requires forall k :: |s[i..]| - m <= k < |s[i..]| ==> IsSpace(s[i..][k])
    ensures forall k :: |s| - m <= k < |s| ==> IsSpace(s[k])
  {
    forall k | |s| - m <= k < |s| ensures IsSpace(s[k]) {
      assert s[k] == s[i..][k - i];
    }
  }

  /** The stripped string starts and ends with a non-space. */
  lemma StripEnds(s: string)
    ensures var t := Strip(s); t == [] || (!IsSpace(t[0]) && !IsSpace(t[|t| - 1]))
  {
    StripSlice(s);
  }

  /** `strip()` leaves nothing exactly when the string is all whitespace. */
  lemma StripEmpty(s: string)
    ensures Strip(s) == [] <==> forall k :: 0 <= k < |s| ==> IsSpace(s[k])
  {
    StripSlice(s);
  }

  /** A string that starts and ends with a non-space is its own strip. */
  lemma StripFixed(s: string)
    requires s == [] || (!IsSpace(s[0]) && !IsSpace(s[|s| - 1]))
    ensures Strip(s) == s
  {
    assert LeadingSpaces(s) == 0;
    assert StripLeft(s) == s;
  }

  /** Every character of the stripped string satisfies whatever every
      character of the input does. */
  lemma StripKeeps(s: string, keep: char -> bool)
    requires forall k :: 0 <= k < |s| ==> keep(s[k])
    ensures forall k :: 0 <= k < |Strip(s)| ==> keep(Strip(s)[k])
  {
    StripSlice(s);
    var i := LeadingSpaces(s);
    forall k | 0 <= k < |Strip(s)| ensures keep(Strip(s)[k]) {
      assert Strip(s)[k] == s[i + k];
    }
  }
}
