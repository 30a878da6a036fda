/** `pretty_timedelta`: a duration, already rounded to whole seconds, as
    `HH:MM:SS`. Python's `divmod` floors; for the positive divisors used
    here that is Dafny's `/` and `%`. */
module TimeFormat {
  import opened Wrappers
  import opened Text
  import opened Decimal

  /** `divmod(n, 3600)` and then `divmod(remainder, 60)`. */
  function Fields(n: int): (f: (int, int, int))
    ensures f.0 * 3600 + f.1 * 60 + f.2 == n
    ensures 0 <= f.1 < 60 && 0 <= f.2 < 60
    ensures n >= 0 ==> f.0 >= 0
  {
    var hours, remainder := n / 3600, n % 3600;
    (hours, remainder / 60, remainder % 60)
  }

  /** `f'{x:02}'`: at least two characters, a single digit padded with `0`;
      any other number, negative ones included, is exactly as long as its
      plain `str(x)`, so it gets no padding. */
  function Pad2(x: int): (s: string)
    ensures 0 <= x < 100 ==> |s| == 2
    ensures |s| >= 2
    ensures |s| == if 0 <= x < 10 then 2 else |IntToDecimal(x)|
    ensures forall i :: 0 <= i < |s| ==> s[i] == '-' || IsDigit(s[i])
  {
    if 0 <= x < 10 then "0" + [DigitChar(x)] else IntToDecimal(x)
  }

  /** The padded spelling reads back as the number. */
  lemma Pad2RoundTrip(x: int)
    ensures ParseInt(Pad2(x)) == Some(x)
  {
    if 0 <= x < 10 {
      var s := Pad2(x);
      assert s[..1] == "0";
      assert ParseNat(s[..1]) == Some(0);
    } else {
      IntRoundTrip(x);
    }
  }

  /** `pretty_timedelta` on a whole number of seconds. */
  function Pretty(n: int): (s: string)
  {
    var f := Fields(n);
    Join([Pad2(f.0), Pad2(f.1), Pad2(f.2)], ':')
  }

  /** Reads `H:MM:SS` back into seconds; None unless there are exactly
      three `:`-separated numbers. */
  function ParsePretty(s: string): (r: Option<int>)
  {
    var parts := Split(s, ':');
    if |parts| != 3 then None
    else match (ParseInt(parts[0]), ParseInt(parts[1]), ParseInt(parts[2]))
      case (Some(h), Some(m), Some(sec)) => Some(h * 3600 + m * 60 + sec)
      case _ => None
  }

  /** The display loses nothing: reading it back gives the seconds shown. */
  lemma PrettyRoundTrip(n: int)
    ensures ParsePretty(Pretty(n)) == Some(n)
  {
    var f := Fields(n);
    var parts := [Pad2(f.0), Pad2(f.1), Pad2(f.2)];
    forall i | 0 <= i < |parts| ensures ':' !in parts[i] {
      if ':' in parts[i] {
        var k :| 0 <= k < |parts[i]| && parts[i][k] == ':';
      }
    }
    SplitJoin(parts, ':');
    Pad2RoundTrip(f.0);
    Pad2RoundTrip(f.1);
    Pad2RoundTrip(f.2);
  }

  /** Durations under a hundred hours are shown as exactly `HH:MM:SS`. */
  lemma PrettyWidth(n: int)
    requires 0 <= n < 360000
    ensures |Pretty(n)| == 8
    ensures Pretty(n)[2] == ':' && Pretty(n)[5] == ':'
  {
    var f := Fields(n);
    assert f.0 < 100;
    var parts := [Pad2(f.0), Pad2(f.1), Pad2(f.2)];
    assert parts[1..][1..] == [parts[2]];
    assert Join(parts[1..], ':') == parts[1] + [':'] + parts[2];
    assert Join(parts, ':') == parts[0] + [':'] + (parts[1] + [':'] + parts[2]);
  }
}
