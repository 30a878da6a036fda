/** `get_post_queue`: all shards run to completion, then their post lists are
    flattened in shard order into the work queue. Against a listing whose
    pages 1..P are non-empty and whose later pages are empty, the queue holds
    every listed post exactly as often as the listing does. */
module Enumeration {
  import opened Wrappers
  import opened Posts
  import opened Sharding

  /** The sum of the lengths of the lists. */
  function TotalLength(xs: seq<seq<Post>>): nat
    decreases |xs|
  {
    if |xs| == 0 then 0 else |xs[0]| + TotalLength(xs[1..])
  }

  /** `[post for postlist in xs for post in postlist]`. */
  function Flatten(xs: seq<seq<Post>>): (r: seq<Post>)
    ensures |r| == TotalLength(xs)
    decreases |xs|
  {
    if |xs| == 0 then [] else xs[0] + Flatten(xs[1..])
  }

  lemma {:induction false} FlattenAppend(a: seq<seq<Post>>, b: seq<seq<Post>>)
    ensures Flatten(a + b) == Flatten(a) + Flatten(b)
    decreases |a|
  {
    if |a| == 0 {
      assert a + b == b;
    } else {
      FlattenAppend(a[1..], b);
      assert (a + b)[1..] == a[1..] + b;
    }
  }

  /** Shard order is kept: list `i` sits in the flattened queue right after
      the posts of the lists before it. */
  lemma FlattenSlice(xs: seq<seq<Post>>, i: nat)
    requires i < |xs|
    ensures var off := TotalLength(xs[..i]);
      off + |xs[i]| <= |Flatten(xs)| && Flatten(xs)[off..off + |xs[i]|] == xs[i]
  {
    assert xs == xs[..i] + ([xs[i]] + xs[i + 1..]);
    FlattenAppend(xs[..i], [xs[i]] + xs[i + 1..]);
    assert Flatten([xs[i]] + xs[i + 1..]) == xs[i] + Flatten(xs[i + 1..]) by {
      assert ([xs[i]] + xs[i + 1..])[1..] == xs[i + 1..];
    }
  }

  /** The final post lists of the shards `1..shards`, each run against its
      own responses. */
  function ShardResults(shards: nat, responses: nat -> seq<PageResponse>): (rs: seq<Shard>)
    ensures |rs| == shards
    ensures forall i :: 0 <= i < shards ==> rs[i] == Run(Start(shards, i + 1), responses(i + 1))
  {
    seq(shards, i requires 0 <= i => Run(Start(shards, i + 1), responses(i + 1)))
  }

  /** The work queue once every shard has returned; None while some shard is
      still paging (the pool's `map` has not completed). */
  function Enumerate(shards: nat, responses: nat -> seq<PageResponse>): (q: Option<seq<Post>>)
    ensures var rs := ShardResults(shards, responses);
      q.Some? <==> forall i :: 0 <= i < shards ==> rs[i].finished
    ensures q.Some? ==> q.value == Flatten(seq(shards, i requires 0 <= i < shards => ShardResults(shards, responses)[i].posts))
  {
    var rs := ShardResults(shards, responses);
    if forall i :: 0 <= i < shards ==> rs[i].finished
    then Some(Flatten(seq(shards, i requires 0 <= i < shards => rs[i].posts)))
    else None
  }

  // ---------------------------------------------------------------------------
  // A listing of P non-empty pages.

  /** Pages 1..P of the listing are non-empty and every later page is empty. */
  ghost predicate Contiguous(listing: nat -> seq<Post>, pageCount: nat) {
    && (forall p :: 1 <= p <= pageCount ==> listing(p) != [])
    && (forall p :: p > pageCount ==> listing(p) == [])
  }

  /** The posts of pages 1..P, in page order. */
  function Pages(listing: nat -> seq<Post>, pageCount: nat): seq<Post>
    decreases pageCount
  {
    if pageCount == 0 then [] else Pages(listing, pageCount - 1) + listing(pageCount)
  }

  /** How many of the pages 1..P belong to shard k. */
  function Count(shards: nat, k: nat, pageCount: nat): nat
    requires shards >= 1
  {
    if k > pageCount then 0 else (pageCount - k) / shards + 1
  }

  /** `Count` is the number of steps before the shard's first page past P. */
  lemma CountBounds(shards: nat, k: nat, pageCount: nat)
    requires shards >= 1 && k >= 1
    ensures var c := Count(shards, k, pageCount);
      PageIndex(shards, k, c) > pageCount && (c == 0 || PageIndex(shards, k, c - 1) <= pageCount)
  {
    var c := Count(shards, k, pageCount);
    if k <= pageCount {
      var q, r := (pageCount - k) / shards, (pageCount - k) % shards;
      assert pageCount - k == shards * q + r;
      assert shards * c == shards * q + shards;
    }
  }

  /** Only `Count` satisfies those bounds. */
  lemma CountUnique(shards: nat, k: nat, pageCount: nat, c: nat)
    requires shards >= 1 && k >= 1
    requires PageIndex(shards, k, c) > pageCount
    requires c == 0 || PageIndex(shards, k, c - 1) <= pageCount
    ensures c == Count(shards, k, pageCount)
  {
    var d := Count(shards, k, pageCount);
    CountBounds(shards, k, pageCount);
    if c < d {
      MulMonotone(shards, c, d - 1);
    } else if c > d {
      MulMonotone(shards, d, c - 1);
    }
  }

  /** Consecutive steps of a shard are `shards` pages apart. */
  lemma PageIndexSucc(shards: nat, k: nat, v: nat)
    ensures PageIndex(shards, k, v + 1) == PageIndex(shards, k, v) + shards
  {
    assert shards * (v + 1) == shards * v + shards;
  }

  /** Page P+1 adds one step to its owner and none to the other shards. */
  lemma CountStep(shards: nat, k: nat, pageCount: nat)
    requires shards >= 1 && 1 <= k <= shards
    ensures k == ShardOfPage(shards, pageCount + 1) ==>
      && Count(shards, k, pageCount + 1) == Count(shards, k, pageCount) + 1
      && PageIndex(shards, k, Count(shards, k, pageCount)) == pageCount + 1
    ensures k != ShardOfPage(shards, pageCount + 1) ==>
      Count(shards, k, pageCount + 1) == Count(shards, k, pageCount)
  {
    var k0, v0 := ShardOfPage(shards, pageCount + 1), StepOfPage(shards, pageCount + 1);
    PageCoverage(shards, pageCount + 1);
    if k == k0 {
      if v0 > 0 {
        PageIndexSucc(shards, k, v0 - 1);
      }
      CountUnique(shards, k, pageCount, v0);
      PageIndexSucc(shards, k, v0);
      CountUnique(shards, k, pageCount + 1, v0 + 1);
    } else {
      var c := Count(shards, k, pageCount);
      CountBounds(shards, k, pageCount);
      if PageIndex(shards, k, c) == pageCount + 1 {
        PagesDisjoint(shards, k, c, k0, v0);
      }
      CountUnique(shards, k, pageCount + 1, c);
    }
  }

  /** How many pages each shard owns among pages 1..P. */
  function CountsAt(shards: nat, pageCount: nat): nat -> nat
    requires shards >= 1
  {
    k => Count(shards, k, pageCount)
  }

  /** What each shard holds after a given number of pages of the listing. */
  function ShardContents(listing: nat -> seq<Post>, shards: nat): (nat, nat) -> seq<Post> {
    (k: nat, count: nat) => Contents(listing, shards, k, count)
  }

  /** The lists of shards 1..j in shard order, shard `k` holding
      `contents(k, counts(k))`. */
  function AllShards(contents: (nat, nat) -> seq<Post>, counts: nat -> nat, j: nat): seq<Post>
    decreases j
  {
    if j == 0 then [] else AllShards(contents, counts, j - 1) + contents(j, counts(j))
  }

  lemma {:induction false} AllShardsEmpty(contents: (nat, nat) -> seq<Post>, counts: nat -> nat, j: nat)
    requires forall k :: 1 <= k <= j ==> contents(k, counts(k)) == []
    ensures AllShards(contents, counts, j) == []
    decreases j
  {
    if j > 0 {
      AllShardsEmpty(contents, counts, j - 1);
    }
  }

  /** When only shard `k0` changes, by gaining `extra` at its end, the shards
      together gain exactly `extra`. */
  lemma {:induction false} AllShardsGrow(contents: (nat, nat) -> seq<Post>, before: nat -> nat,
                                        after: nat -> nat, j: nat, k0: nat, extra: seq<Post>)
    requires forall k :: 1 <= k <= j && k != k0 ==> after(k) == before(k)
    requires contents(k0, after(k0)) == contents(k0, before(k0)) + extra
    ensures multiset(AllShards(contents, after, j)) ==
      multiset(AllShards(contents, before, j)) + (if 1 <= k0 <= j then multiset(extra) else multiset{})
    decreases j
  {
    if j > 0 {
      AllShardsGrow(contents, before, after, j - 1, k0, extra);
    }
  }

  /** Page P changes only the counts of its owner, whose list it ends. */
  lemma PageJoinsOwner(listing: nat -> seq<Post>, shards: nat, pageCount: nat)
    requires shards >= 1 && pageCount >= 1
    ensures var before, after := CountsAt(shards, pageCount - 1), CountsAt(shards, pageCount);
      var k0 := ShardOfPage(shards, pageCount);
      && (forall k :: 1 <= k <= shards && k != k0 ==> after(k) == before(k))
      && ShardContents(listing, shards)(k0, after(k0))
         == ShardContents(listing, shards)(k0, before(k0)) + listing(pageCount)
  {
    var k0 := ShardOfPage(shards, pageCount);
    forall k | 1 <= k <= shards && k != k0
      ensures Count(shards, k, pageCount) == Count(shards, k, pageCount - 1)
    {
      CountStep(shards, k, pageCount - 1);
    }
    CountStep(shards, k0, pageCount - 1);
  }

  /** Regrouping: the shards together hold the posts of pages 1..P. */
  lemma {:induction false} AllShardsArePages(listing: nat -> seq<Post>, shards: nat, pageCount: nat)
    requires shards >= 1
    ensures multiset(AllShards(ShardContents(listing, shards), CountsAt(shards, pageCount), shards))
      == multiset(Pages(listing, pageCount))
    decreases pageCount, 1
  {
    if pageCount == 0 {
      AllShardsEmpty(ShardContents(listing, shards), CountsAt(shards, 0), shards);
    } else {
      LastPageJoins(listing, shards, pageCount);
    }
  }

  /** The inductive step of AllShardsArePages: page P goes to its owner. */
  lemma {:induction false} LastPageJoins(listing: nat -> seq<Post>, shards: nat, pageCount: nat)
    requires shards >= 1 && pageCount >= 1
    ensures multiset(AllShards(ShardContents(listing, shards), CountsAt(shards, pageCount), shards))
      == multiset(Pages(listing, pageCount))
    decreases pageCount, 0
  {
    AllShardsArePages(listing, shards, pageCount - 1);
    PageJoinsShards(listing, shards, pageCount);
    PagesGrow(listing, pageCount);
  }

  /** The listing up to page P is the listing up to P - 1 and page P. */
  lemma PagesGrow(listing: nat -> seq<Post>, pageCount: nat)
    requires pageCount >= 1
    ensures multiset(Pages(listing, pageCount))
      == multiset(Pages(listing, pageCount - 1)) + multiset(listing(pageCount))
  {
  }

  /** Page P joins the shards' posts through its owner. */
  lemma PageJoinsShards(listing: nat -> seq<Post>, shards: nat, pageCount: nat)
    requires shards >= 1 && pageCount >= 1
    ensures var contents := ShardContents(listing, shards);
      multiset(AllShards(contents, CountsAt(shards, pageCount), shards))
        == multiset(AllShards(contents, CountsAt(shards, pageCount - 1), shards)) + multiset(listing(pageCount))
  {
    PageJoinsOwner(listing, shards, pageCount);
    AllShardsGrow(ShardContents(listing, shards), CountsAt(shards, pageCount - 1), CountsAt(shards, pageCount),
                  shards, ShardOfPage(shards, pageCount), listing(pageCount));
  }


  /** A returned shard that was faithful to a contiguous listing gathered
      exactly its share of pages 1..P. */
  lemma FinishedShard(listing: nat -> seq<Post>, pageCount: nat, s: Shard)
    requires Contiguous(listing, pageCount) && Collected(listing, s) && s.finished
    ensures s.visited == Count(s.shards, s.id, pageCount)
    ensures s.posts == Contents(listing, s.shards, s.id, Count(s.shards, s.id, pageCount))
  {
    if s.visited > 0 {
      assert listing(PageIndex(s.shards, s.id, s.visited - 1)) != [];
    }
    CountUnique(s.shards, s.id, pageCount, s.visited);
  }

  lemma {:induction false} FlattenIsAllShards(listing: nat -> seq<Post>, shards: nat, pageCount: nat,
                                             xs: seq<seq<Post>>, j: nat)
    requires shards >= 1 && j <= |xs| == shards
    requires forall i :: 0 <= i < shards ==> xs[i] == Contents(listing, shards, i + 1, Count(shards, i + 1, pageCount))
    ensures Flatten(xs[..j]) == AllShards(ShardContents(listing, shards), CountsAt(shards, pageCount), j)
    decreases j
  {
    if j > 0 {
      FlattenIsAllShards(listing, shards, pageCount, xs, j - 1);
      assert xs[..j] == xs[..j - 1] + [xs[j - 1]];
      FlattenAppend(xs[..j - 1], [xs[j - 1]]);
      assert Flatten([xs[j - 1]]) == xs[j - 1] + Flatten([]);
    }
  }

  /** Enumeration is complete and duplicate-free: when every shard has
      returned, having seen only exceptions, malformed pages or the true
      contents of the pages it asked for, the queue holds each post of
      pages 1..P exactly as many times as the listing does, and its size is
      the number of listed posts. */
  lemma EnumerationComplete(listing: nat -> seq<Post>, pageCount: nat, shards: nat,
                            responses: nat -> seq<PageResponse>)
    requires shards >= 1 && Contiguous(listing, pageCount)
    requires forall k :: 1 <= k <= shards ==> Faithful(listing, Start(shards, k), responses(k))
    ensures var q := Enumerate(shards, responses);
      q.Some? ==>
        && multiset(q.value) == multiset(Pages(listing, pageCount))
        && |q.value| == |Pages(listing, pageCount)|
  {
    var q := Enumerate(shards, responses);
    if q.Some? {
      var rs := ShardResults(shards, responses);
      var xs := seq(shards, i requires 0 <= i < shards => rs[i].posts);
      ShardsHoldTheirPages(listing, pageCount, shards, responses, xs);
      FlattenIsPages(listing, shards, pageCount, xs);
    }
  }

  /** Each finished, faithful shard holds exactly its share of the pages. */
  lemma ShardsHoldTheirPages(listing: nat -> seq<Post>, pageCount: nat, shards: nat,
                             responses: nat -> seq<PageResponse>, xs: seq<seq<Post>>)
    requires shards >= 1 && Contiguous(listing, pageCount)
    requires forall k :: 1 <= k <= shards ==> Faithful(listing, Start(shards, k), responses(k))
    requires |xs| == shards
    requires forall i :: 0 <= i < shards ==>
      ShardResults(shards, responses)[i].finished && xs[i] == ShardResults(shards, responses)[i].posts
    ensures forall i :: 0 <= i < shards ==> xs[i] == Contents(listing, shards, i + 1, Count(shards, i + 1, pageCount))
  {
    var rs := ShardResults(shards, responses);
    forall i | 0 <= i < shards
      ensures xs[i] == Contents(listing, shards, i + 1, Count(shards, i + 1, pageCount))
    {
      StartCollects(listing, shards, i + 1);
      assert Faithful(listing, Start(shards, i + 1), responses(i + 1));
      RunCollects(listing, Start(shards, i + 1), responses(i + 1));
      FinishedShard(listing, pageCount, rs[i]);
    }
  }

  /** The shards' posts, concatenated, are the posts of pages 1..P. */
  lemma FlattenIsPages(listing: nat -> seq<Post>, shards: nat, pageCount: nat, xs: seq<seq<Post>>)
    requires shards >= 1 && |xs| == shards
    requires forall i :: 0 <= i < shards ==> xs[i] == Contents(listing, shards, i + 1, Count(shards, i + 1, pageCount))
    ensures multiset(Flatten(xs)) == multiset(Pages(listing, pageCount))
    ensures |Flatten(xs)| == |Pages(listing, pageCount)|
  {
    FlattenIsAllShards(listing, shards, pageCount, xs, shards);
    assert xs[..shards] == xs;
    AllShardsArePages(listing, shards, pageCount);
    assert |Flatten(xs)| == |multiset(Flatten(xs))|;
  }

  // ---------------------------------------------------------------------------
  // Answered truthfully, every shard returns.

  /** The true listing of each page the shard asks for, `n` requests ahead. */
  function Answers(listing: nat -> seq<Post>, s: Shard, n: nat): (rs: seq<PageResponse>)
    ensures |rs| == n
    decreases n
  {
    if n == 0 then []
    else
      var r := Listing(listing(NextPage(s)));
      [r] + Answers(listing, Step(s, r), n - 1)
  }

  lemma {:induction false} AnswersFaithful(listing: nat -> seq<Post>, s: Shard, n: nat)
    ensures Faithful(listing, s, Answers(listing, s, n))
    decreases n
  {
    if n > 0 && !s.finished {
      var r := Listing(listing(NextPage(s)));
      AnswersFaithful(listing, Step(s, r), n - 1);
      assert Answers(listing, s, n)[1..] == Answers(listing, Step(s, r), n - 1);
    }
  }

  /** Told the truth about a contiguous listing, a shard that has taken no
      more than its share of pages returns after the rest of its share and
      one empty page. */
  lemma {:induction false} AnswersFinish(listing: nat -> seq<Post>, pageCount: nat, s: Shard)
    requires Contiguous(listing, pageCount) && Valid(s) && !s.finished
    requires s.visited <= Count(s.shards, s.id, pageCount)
    ensures Run(s, Answers(listing, s, Count(s.shards, s.id, pageCount) - s.visited + 1)).finished
    decreases Count(s.shards, s.id, pageCount) - s.visited
  {
    var c := Count(s.shards, s.id, pageCount);
    var r := Listing(listing(NextPage(s)));
    var t := Step(s, r);
    var answers := Answers(listing, s, c - s.visited + 1);
    assert answers[0] == r && answers[1..] == Answers(listing, t, c - s.visited);
    CountBounds(s.shards, s.id, pageCount);
    if s.visited == c {
      assert listing(NextPage(s)) == [];
    } else {
      MulMonotone(s.shards, s.visited, c - 1);
      assert listing(NextPage(s)) != [];
      AnswersFinish(listing, pageCount, t);
    }
  }

  /** Every shard `k` told the truth, up to and including its first empty
      page. */
  function TrueResponses(listing: nat -> seq<Post>, shards: nat, pageCount: nat): nat -> seq<PageResponse>
    requires shards >= 1
  {
    (k: nat) => Answers(listing, Start(shards, k), Count(shards, k, pageCount) + 1)
  }

  /** A listing of P non-empty pages, answered truthfully, is enumerated:
      every shard returns and the queue holds exactly the listed posts. */
  lemma EnumerationTerminates(listing: nat -> seq<Post>, pageCount: nat, shards: nat)
    requires shards >= 1 && Contiguous(listing, pageCount)
    ensures var q := Enumerate(shards, TrueResponses(listing, shards, pageCount));
      && q.Some?
      && multiset(q.value) == multiset(Pages(listing, pageCount))
      && |q.value| == |Pages(listing, pageCount)|
  {
    var responses := TrueResponses(listing, shards, pageCount);
    var rs := ShardResults(shards, responses);
    forall k | 1 <= k <= shards
      ensures Faithful(listing, Start(shards, k), responses(k))
    {
      AnswersFaithful(listing, Start(shards, k), Count(shards, k, pageCount) + 1);
    }
    forall i | 0 <= i < shards
      ensures rs[i].finished
    {
      AnswersFinish(listing, pageCount, Start(shards, i + 1));
    }
    EnumerationComplete(listing, pageCount, shards, responses);
  }
}
