/** The status display of `status_thread`: the fraction of posts handled
    and the estimated time left. Durations are exact reals here. */
module Progress {
  import opened Wrappers
  import Download
  import Posts

  /** `total_downloaded / total_posts`. This division is outside the
      `try`, so with an empty queue it raises and the status thread ends:
      None. */
  function Fraction(done: nat, total: nat): (r: Option<real>)
    ensures r.None? <==> total == 0
    ensures r.Some? ==> r.value * total as real == done as real
    ensures r.Some? && done <= total ==> 0.0 <= r.value <= 1.0
  {
    if total == 0 then None else Some(done as real / total as real)
  }

  /** `elapsed / total_downloaded * total_posts - elapsed`, or zero when
      nothing is handled yet (the caught ZeroDivisionError). */
  function Eta(elapsed: real, done: nat, total: nat): (eta: real)
    ensures done == 0 ==> eta == 0.0
    ensures done > 0 ==> (eta + elapsed) * done as real == elapsed * total as real
  {
    if done == 0 then 0.0 else elapsed / done as real * total as real - elapsed
  }

  /** Before the end the estimate is never negative, and it reaches zero
      exactly when every post is handled (for a run that took time). */
  lemma EtaBounds(elapsed: real, done: nat, total: nat)
    requires elapsed > 0.0 && 0 < done <= total
    ensures Eta(elapsed, done, total) >= 0.0
    ensures Eta(elapsed, done, total) == 0.0 <==> done == total
  {
    var e := Eta(elapsed, done, total);
    assert (e + elapsed) * done as real == elapsed * total as real;
    if done < total {
      assert elapsed * total as real > elapsed * done as real;
      assert e * done as real > 0.0;
    } else {
      assert e * done as real == 0.0;
    }
  }

  /** At the same elapsed time, more posts handled means a smaller
      estimate. */
  lemma EtaMonotone(elapsed: real, d1: nat, d2: nat, total: nat)
    requires elapsed >= 0.0 && 0 < d1 <= d2
    ensures Eta(elapsed, d2, total) <= Eta(elapsed, d1, total)
  {
    var r1, r2 := elapsed / d1 as real, elapsed / d2 as real;
    assert r2 * d2 as real == r1 * d1 as real;
    assert r2 * d2 as real >= r2 * d1 as real;
    assert r2 <= r1;
    assert r2 * total as real <= r1 * total as real;
  }

  /** When every deleted post's URL resolves, the fraction computed from
      the final tally is exactly 1. */
  lemma CompleteAtEnd(cfg: Download.Config, folder: string, net: Download.Network,
                      queue: seq<Posts.Post>, disk: set<string>)
    requires |queue| > 0
    requires forall i :: 0 <= i < |queue| ==> Download.ImageUrl(queue[i], net).Some?
    ensures var r := Download.DownloadQueue(cfg, folder, net, queue, disk);
      Fraction(Download.Done(r.0.tally), r.1) == Some(1.0)
  {
    Download.DownloadComplete(cfg, folder, net, queue, disk);
    FractionFull(|queue|);
  }

  /** Every post handled is a fraction of exactly 1. */
  lemma FractionFull(n: nat)
    requires n > 0
    ensures Fraction(n, n) == Some(1.0)
  {
    var x := n as real;
    assert x > 0.0;
    assert x / x == 1.0;
    assert Fraction(n, n) == Some(x / x);
  }
}
