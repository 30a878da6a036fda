/** What `main` does with the user's answers: normalising the query,
    deriving the default folder name, and choosing the folder. The
    clock reading and `str.isalnum` are parameters. */
module Inputs {
  import opened Text

  /** `' '.join(s for s in query.strip().split(' ') if s)`. */
  function NormaliseQuery(q: string): string {
    Join(Words(q), ' ')
  }

  /** The words of the query: the non-empty space-separated pieces of the
      stripped answer. */
  function Words(q: string): (ws: seq<string>)
    ensures forall i :: 0 <= i < |ws| ==> ws[i] != [] && ' ' !in ws[i]
  {
    var parts := Split(Strip(q), ' ');
    var ws := NonEmpty(parts);
    assert forall i :: 0 <= i < |ws| ==> ' ' !in ws[i] by {
      forall i | 0 <= i < |ws| ensures ' ' !in ws[i] {
        var j :| 0 <= j < |parts| && parts[j] == ws[i];
      }
    }
    ws
  }

  // ---------------------------------------------------------------------------
  // Normalising the query.

  /** A join of non-empty, space-free words has no space at either end and
      no two spaces in a row. */
  lemma {:induction false} JoinSpaced(ws: seq<string>)
    requires forall i :: 0 <= i < |ws| ==> ws[i] != [] && ' ' !in ws[i]
    ensures var r := Join(ws, ' ');
      && (r == [] <==> ws == [])
      && (r != [] ==> r[0] != ' ' && r[|r| - 1] != ' ')
      && forall i :: 0 <= i < |r| - 1 ==> !(r[i] == ' ' && r[i + 1] == ' ')
    decreases |ws|
  {
    if |ws| == 1 {
      var w := ws[0];
      assert w[0] in w && w[|w| - 1] in w;
      forall i | 0 <= i < |w| - 1 ensures w[i] != ' ' {
        assert w[i] in w;
      }
    } else if |ws| > 1 {
      var w := ws[0];
      var rest := Join(ws[1..], ' ');
      JoinSpaced(ws[1..]);
      var r := w + [' '] + rest;
      assert Join(ws, ' ') == r;
      assert w[0] in w;
      forall i | 0 <= i < |r| - 1 ensures !(r[i] == ' ' && r[i + 1] == ' ') {
        if i < |w| {
          assert r[i] == w[i] && w[i] in w;
        } else if i > |w| {
          assert r[i] == rest[i - |w| - 1] && r[i + 1] == rest[i - |w|];
        }
      }
    }
  }

  /** The normalised query is the words joined by single spaces: no
      leading, trailing or doubled space, and splitting it on spaces gives
      back exactly the words. */
  lemma QueryWords(q: string)
    ensures var r := NormaliseQuery(q);
      && (r == [] <==> Words(q) == [])
      && (r != [] ==> r[0] != ' ' && r[|r| - 1] != ' ')
      && (forall i :: 0 <= i < |r| - 1 ==> !(r[i] == ' ' && r[i + 1] == ' '))
      && (Words(q) != [] ==> Split(r, ' ') == Words(q))
  {
    JoinSpaced(Words(q));
    if Words(q) != [] {
      SplitJoin(Words(q), ' ');
    }
  }

  /** The normalised query keeps the stripped answer's first and last
      characters, so it starts and ends with a non-space. */
  lemma QueryEnds(q: string)
    ensures var r := NormaliseQuery(q); var t := Strip(q);
      && (r == [] <==> t == [])
      && (r != [] ==> r[0] == t[0] && r[|r| - 1] == t[|t| - 1])
  {
    var t := Strip(q);
    StripEnds(q);
    if t == [] {
      assert NormaliseQuery(q) == [] by {
        assert Split(t, ' ') == [""];
        assert NonEmpty([""]) == NonEmpty([""][1..]);
      }
    } else {
      assert IsSpace(' ');
      FirstWord(t);
      LastWord(t);
    }
  }

  /** A string not starting with a space begins with its first word. */
  lemma FirstWord(t: string)
    requires t != [] && t[0] != ' '
    ensures var r := Join(NonEmpty(Split(t, ' ')), ' '); r != [] && r[0] == t[0]
  {
    var parts := Split(t, ' ');
    FirstPiece(t, ' ');
    NonEmptyFirst(parts);
    JoinFirst(NonEmpty(parts), ' ');
  }

  /** A string not ending with a space ends with its last word. */
  lemma LastWord(t: string)
    requires t != [] && t[|t| - 1] != ' '
    ensures var r := Join(NonEmpty(Split(t, ' ')), ' '); r != [] && r[|r| - 1] == t[|t| - 1]
  {
    var parts := Split(t, ' ');
    LastPiece(t, ' ');
    NonEmptyLast(parts);
    JoinLast(NonEmpty(parts), ' ');
  }

  /** Normalising a normalised query changes nothing. */
  lemma QueryIdempotent(q: string)
    ensures NormaliseQuery(NormaliseQuery(q)) == NormaliseQuery(q)
  {
    var r := NormaliseQuery(q);
    var ws := Words(q);
    QueryEnds(q);
    StripEnds(q);
    StripFixed(r);
    if ws == [] {
      assert r == [];
      assert Split(r, ' ') == [""];
      assert NonEmpty([""]) == NonEmpty([""][1..]);
    } else {
      QueryWords(q);
      NonEmptyKeeps(ws);
    }
  }

  // ---------------------------------------------------------------------------
  // The folder name.

  /** The characters a default folder name may contain. */
  predicate Allowed(isAlnum: char -> bool, c: char) {
    isAlnum(c) || c == ' ' || c == '_' || c == '-'
  }

  /** `c.isalnum() or c in (' ', '_', '-')`, as the filter's test. */
  function AllowedIn(isAlnum: char -> bool): char -> bool {
    c => Allowed(isAlnum, c)
  }

  /** `query[:100]`. */
  function Prefix100(query: string): (p: string)
    ensures |p| <= 100 && |p| <= |query| && p == query[..|p|]
    ensures |query| <= 100 ==> p == query
    ensures |p| == if |query| <= 100 then |query| else 100
  {
    if |query| <= 100 then query else query[..100]
  }

  /** The text the default folder name is cut from: the time stamp, a
      space and the first 100 characters of the query, with every
      character other than alphanumerics, spaces, `_` and `-` removed. */
  function FolderText(stamp: string, query: string, isAlnum: char -> bool): string {
    Filter(stamp + " " + Prefix100(query), AllowedIn(isAlnum))
  }

  /** The kept characters of the time stamp come first, in order, then the
      separating space, then the kept characters of the query prefix. */
  lemma FolderTextParts(stamp: string, query: string, isAlnum: char -> bool)
    ensures FolderText(stamp, query, isAlnum)
      == Filter(stamp, AllowedIn(isAlnum)) + " " + Filter(Prefix100(query), AllowedIn(isAlnum))
  {
    var keep := AllowedIn(isAlnum);
    FilterAppend(stamp + " ", Prefix100(query), keep);
    FilterAppend(stamp, " ", keep);
    assert Filter(" ", keep) == " " by {
      assert keep(' ');
      assert " "[1..] == [];
    }
  }

  /** The default folder name: the filtered text, stripped. */
  function DefaultFolderName(stamp: string, query: string, isAlnum: char -> bool): string {
    Strip(FolderText(stamp, query, isAlnum))
  }

  /** The default name holds only allowed characters and neither starts nor
      ends with whitespace. */
  lemma DefaultFolderAllowed(stamp: string, query: string, isAlnum: char -> bool)
    ensures var name := DefaultFolderName(stamp, query, isAlnum);
      && (forall k :: 0 <= k < |name| ==> Allowed(isAlnum, name[k]))
      && (name == [] || (!IsSpace(name[0]) && !IsSpace(name[|name| - 1])))
  {
    var kept := FolderText(stamp, query, isAlnum);
    StripEnds(kept);
    StripKeeps(kept, AllowedIn(isAlnum));
  }

  /** The default name is the filtered text with its surrounding whitespace
      cut off and nothing else removed. */
  lemma DefaultFolderShape(stamp: string, query: string, isAlnum: char -> bool)
    ensures var kept := FolderText(stamp, query, isAlnum);
      var i, j := LeadingSpaces(kept), StripEnd(kept);
      && DefaultFolderName(stamp, query, isAlnum) == kept[i..j]
      && (forall k :: 0 <= k < i ==> IsSpace(kept[k]))
      && (forall k :: j <= k < |kept| ==> IsSpace(kept[k]))
  {
    StripSlice(FolderText(stamp, query, isAlnum));
  }

  /** A time stamp and query made only of allowed characters, with no
      whitespace at the outer ends, give the name `stamp + ' ' + query`. */
  lemma DefaultFolderVerbatim(stamp: string, query: string, isAlnum: char -> bool)
    requires |query| <= 100
    requires forall i :: 0 <= i < |stamp| ==> Allowed(isAlnum, stamp[i])
    requires forall i :: 0 <= i < |query| ==> Allowed(isAlnum, query[i])
    requires stamp != [] && !IsSpace(stamp[0])
    requires query != [] && !IsSpace(query[|query| - 1])
    ensures DefaultFolderName(stamp, query, isAlnum) == stamp + " " + query
  {
    var raw := stamp + " " + query;
    forall i | 0 <= i < |raw| ensures AllowedIn(isAlnum)(raw[i]) {
      if i < |stamp| {
        assert raw[i] == stamp[i];
      } else if i > |stamp| {
        assert raw[i] == query[i - |stamp| - 1];
      }
    }
    FilterAllKept(raw, AllowedIn(isAlnum));
    assert raw[0] == stamp[0] && raw[|raw| - 1] == query[|query| - 1];
    StripFixed(raw);
  }

  /** The folder: the stripped answer, or the default when that is empty. */
  function ChooseFolder(answer: string, default: string): string {
    var a := Strip(answer);
    if a == [] then default else a
  }

  /** An answer that is only whitespace (or empty) picks the default. The
      chosen folder never starts or ends with whitespace when the default
      does not. */
  lemma FolderDefault(answer: string, default: string)
    requires default == [] || (!IsSpace(default[0]) && !IsSpace(default[|default| - 1]))
    ensures var f := ChooseFolder(answer, default);
      && ((forall k :: 0 <= k < |answer| ==> IsSpace(answer[k])) ==> f == default)
      && (f == [] || (!IsSpace(f[0]) && !IsSpace(f[|f| - 1])))
  {
    StripEnds(answer);
    StripEmpty(answer);
  }

  /** Any other answer is used as typed, less its surrounding whitespace. */
  lemma FolderFromAnswer(answer: string, default: string)
    requires exists k :: 0 <= k < |answer| && !IsSpace(answer[k])
    ensures var f := ChooseFolder(answer, default);
      f != [] && f == answer[LeadingSpaces(answer)..StripEnd(answer)]
  {
    StripEmpty(answer);
    StripIsSlice(answer);
  }
}
