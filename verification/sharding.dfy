/** The paging of one query-fetcher shard (`query_fetcher_thread` in v1.py).

    Shard `k` of `N` asks for listing page `N * v + k`, where `v` counts the
    pages it has already taken. An empty page ends the shard; any exception
    is swallowed and the loop asks for the same page again. The listing
    endpoint is an oracle: the shard is run against the sequence of
    responses it receives, one per request. */
module Sharding {
  import opened Wrappers
  import opened Posts

  /** THREAD_COUNT: the number of shards (and of download workers). */
  const THREAD_COUNT: nat := 30

  /** What one listing request yields, as seen by the shard's loop body.
      `Listing` is a decoded JSON array of well-formed posts (empty at the
      end of the shard's pages). `Malformed` is an array whose entry number
      `|prefix|` lacks `id` or `md5`: `prefix` holds the entries converted
      before the KeyError. `RequestError` is any other exception: a timeout,
      a connection error or undecodable JSON. */
  datatype PageResponse =
    | Listing(posts: seq<Post>)
    | Malformed(prefix: seq<Post>)
    | RequestError

  /** The response for a decoded JSON array of entries. */
  function ParsePage(entries: seq<RawPost>, thumbnails: bool): (r: PageResponse)
    ensures !r.RequestError?
    ensures r.Listing? <==>
      forall i :: 0 <= i < |entries| ==> FromListing(entries[i], thumbnails).Some?
    ensures r.Listing? ==> |r.posts| == |entries|
    ensures r.Listing? ==>
      forall i :: 0 <= i < |entries| ==> FromListing(entries[i], thumbnails) == Some(r.posts[i])
    ensures r.Malformed? ==> |r.prefix| < |entries| && r.prefix == ConvertPrefix(entries, thumbnails)
    ensures r.Listing? && r.posts == [] <==> entries == []
  {
    var converted := ConvertPrefix(entries, thumbnails);
    if |converted| == |entries| then Listing(converted) else Malformed(converted)
  }

  // ---------------------------------------------------------------------------
  // Page arithmetic: the shards partition the pages 1, 2, 3, ...

  /** The page shard `shard` of `shards` requests after `visited` pages. */
  function PageIndex(shards: nat, shard: nat, visited: nat): nat {
    shards * visited + shard
  }

  /** The shard that owns `page`. */
  function ShardOfPage(shards: nat, page: nat): (k: nat)
    requires shards >= 1 && page >= 1
    ensures 1 <= k <= shards
  {
    (page - 1) % shards + 1
  }

  /** How many pages the owning shard has taken when it requests `page`. */
  function StepOfPage(shards: nat, page: nat): nat
    requires shards >= 1 && page >= 1
  {
    (page - 1) / shards
  }

  /** Division by a positive divisor is determined by quotient and remainder. */
  lemma DivModUnique(a: nat, n: nat, q: nat, r: nat)
    requires n >= 1 && r < n && a == n * q + r
    ensures a / n == q && a % n == r
  {
    var q', r' := a / n, a % n;
    assert a == n * q' + r';
    if q > q' {
      MulMonotone(n, q' + 1, q);
      assert false;
    } else if q < q' {
      MulMonotone(n, q + 1, q');
      assert false;
    }
  }

  /** Multiplication by a natural number is monotone. */
  lemma MulMonotone(n: nat, x: nat, y: nat)
    requires x <= y
    ensures n * x <= n * y
  {
    assert n * y == n * x + n * (y - x);
  }

  /** The page shard `k` requests on its `v`-th step is a page of shard `k`,
      reached on step `v`: page indices never collide. */
  lemma PageOwner(shards: nat, k: nat, v: nat)
    requires shards >= 1 && 1 <= k <= shards
    ensures PageIndex(shards, k, v) >= 1
    ensures ShardOfPage(shards, PageIndex(shards, k, v)) == k
    ensures StepOfPage(shards, PageIndex(shards, k, v)) == v
  {
    DivModUnique(PageIndex(shards, k, v) - 1, shards, v, k - 1);
  }

  /** Every page number is requested by its owner on the matching step. */
  lemma PageCoverage(shards: nat, page: nat)
    requires shards >= 1 && page >= 1
    ensures PageIndex(shards, ShardOfPage(shards, page), StepOfPage(shards, page)) == page
  {
  }

  /** Distinct (shard, step) pairs request distinct pages. */
  lemma PagesDisjoint(shards: nat, k1: nat, v1: nat, k2: nat, v2: nat)
    requires shards >= 1 && 1 <= k1 <= shards && 1 <= k2 <= shards
    requires PageIndex(shards, k1, v1) == PageIndex(shards, k2, v2)
    ensures k1 == k2 && v1 == v2
  {
    PageOwner(shards, k1, v1);
    PageOwner(shards, k2, v2);
  }

  // ---------------------------------------------------------------------------
  // The loop body of one shard.

  /** The locals of one running shard: its number, the pages it has taken
      (`visited_pages`), the posts gathered so far, and whether it has
      returned. */
  datatype Shard = Shard(shards: nat, id: nat, visited: nat, posts: seq<Post>, finished: bool)

  predicate Valid(s: Shard) {
    s.shards >= 1 && 1 <= s.id <= s.shards
  }

  /** A shard before its first request. */
  function Start(shards: nat, id: nat): Shard {
    Shard(shards, id, 0, [], false)
  }

  /** The page of the shard's next request. */
  function NextPage(s: Shard): nat {
    PageIndex(s.shards, s.id, s.visited)
  }

  /** One pass of the loop body: the empty page returns, a full page is
      appended and counted, and an exception changes nothing, so the same
      page is asked for again. A returned shard makes no more requests. */
  function Step(s: Shard, resp: PageResponse): (t: Shard)
    ensures t.shards == s.shards && t.id == s.id
    ensures s.finished ==> t == s
    ensures resp.RequestError? || resp.Malformed? ==> t == s
    ensures t.finished <==> s.finished || resp == Listing([])
    ensures t.visited == s.visited ==> t.posts == s.posts
    ensures !s.finished && resp.Listing? && resp.posts != [] ==>
      t.visited == s.visited + 1 && t.posts == s.posts + resp.posts
    ensures t.visited != s.visited ==>
      && !s.finished && resp.Listing? && resp.posts != []
      && t.visited == s.visited + 1
      && t.posts == s.posts + resp.posts
      && NextPage(t) == NextPage(s) + s.shards
  {
    if s.finished then s
    else match resp
      case Listing(ps) =>
        if ps == [] then s.(finished := true)
        else s.(posts := s.posts + ps, visited := s.visited + 1)
      case Malformed(_) => s
      case RequestError => s
  }

  /** The shard driven by the responses it receives, one per request. */
  function Run(s: Shard, responses: seq<PageResponse>): (t: Shard)
    ensures t.shards == s.shards && t.id == s.id
    ensures t.visited >= s.visited && s.posts <= t.posts
    ensures s.finished ==> t == s
    decreases |responses|
  {
    if |responses| == 0 || s.finished then s
    else Run(Step(s, responses[0]), responses[1..])
  }

  /** The pages the shard requests while it is driven by `responses`. */
  function Requests(s: Shard, responses: seq<PageResponse>): seq<nat>
    decreases |responses|
  {
    if |responses| == 0 || s.finished then []
    else [NextPage(s)] + Requests(Step(s, responses[0]), responses[1..])
  }

  /** A shard only ever requests its own pages, each at a step it has reached. */
  lemma {:induction false} RequestsOwned(s: Shard, responses: seq<PageResponse>)
    requires Valid(s)
    ensures var req := Requests(s, responses);
      forall i :: 0 <= i < |req| ==>
        && req[i] >= 1
        && ShardOfPage(s.shards, req[i]) == s.id
        && s.visited <= StepOfPage(s.shards, req[i]) <= Run(s, responses).visited
    decreases |responses|
  {
    if |responses| > 0 && !s.finished {
      var t := Step(s, responses[0]);
      RequestsOwned(t, responses[1..]);
      PageOwner(s.shards, s.id, s.visited);
      var req := Requests(s, responses);
      assert req == [NextPage(s)] + Requests(t, responses[1..]);
      forall i | 0 <= i < |req|
        ensures && req[i] >= 1
                && ShardOfPage(s.shards, req[i]) == s.id
                && s.visited <= StepOfPage(s.shards, req[i]) <= Run(s, responses).visited
      {
        if i > 0 {
          assert req[i] == Requests(t, responses[1..])[i - 1];
        }
      }
    }
  }

  // ---------------------------------------------------------------------------
  // Against a fixed listing, a shard gathers exactly its own pages.

  /** The posts of the first `count` pages of shard `k`, in request order. */
  function Contents(listing: nat -> seq<Post>, shards: nat, k: nat, count: nat): seq<Post>
    decreases count
  {
    if count == 0 then []
    else Contents(listing, shards, k, count - 1) + listing(PageIndex(shards, k, count - 1))
  }

  /** A response the endpoint can give for the shard's next request: an
      exception, a page with an entry that cannot be converted, or the
      listing of exactly the page requested. */
  predicate FaithfulResponse(listing: nat -> seq<Post>, s: Shard, resp: PageResponse) {
    resp.RequestError? || resp.Malformed? || resp == Listing(listing(NextPage(s)))
  }

  /** Each response is one the endpoint can give for the page the shard
      actually requested at that point. */
  predicate Faithful(listing: nat -> seq<Post>, s: Shard, responses: seq<PageResponse>)
    decreases |responses|
  {
    || |responses| == 0
    || s.finished
    || (FaithfulResponse(listing, s, responses[0])
        && Faithful(listing, Step(s, responses[0]), responses[1..]))
  }

  /** A page decoded from the raw listing is a faithful response, where the
      listing of a page is the conversion of its raw entries. */
  lemma ParsedIsFaithful(raw: nat -> seq<RawPost>, thumbnails: bool, s: Shard)
    ensures FaithfulResponse((n: nat) => ConvertPrefix(raw(n), thumbnails), s,
                             ParsePage(raw(NextPage(s)), thumbnails))
  {
  }

  /** The shard invariant: the posts are exactly those of the pages taken,
      every page taken was non-empty, and a returned shard saw its next page
      empty. */
  predicate Collected(listing: nat -> seq<Post>, s: Shard) {
    && Valid(s)
    && s.posts == Contents(listing, s.shards, s.id, s.visited)
    && (forall v :: 0 <= v < s.visited ==> listing(PageIndex(s.shards, s.id, v)) != [])
    && (s.finished ==> listing(NextPage(s)) == [])
  }

  /** One step preserves the shard invariant. */
  lemma StepCollects(listing: nat -> seq<Post>, s: Shard, resp: PageResponse)
    requires Collected(listing, s)
    requires FaithfulResponse(listing, s, resp)
    ensures Collected(listing, Step(s, resp))
  {
    var t := Step(s, resp);
    if t.visited != s.visited {
      assert forall v :: 0 <= v < t.visited ==> listing(PageIndex(s.shards, s.id, v)) != [] by {
        forall v | 0 <= v < t.visited
          ensures listing(PageIndex(s.shards, s.id, v)) != []
        {
          if v == s.visited {
            assert PageIndex(s.shards, s.id, v) == NextPage(s);
          }
        }
      }
    }
  }

  /** A whole run preserves the shard invariant. */
  lemma {:induction false} RunCollects(listing: nat -> seq<Post>, s: Shard, responses: seq<PageResponse>)
    requires Collected(listing, s) && Faithful(listing, s, responses)
    ensures Collected(listing, Run(s, responses))
    decreases |responses|
  {
    if |responses| > 0 && !s.finished {
      StepCollects(listing, s, responses[0]);
      RunCollects(listing, Step(s, responses[0]), responses[1..]);
    }
  }

  lemma StartCollects(listing: nat -> seq<Post>, shards: nat, id: nat)
    requires shards >= 1 && 1 <= id <= shards
    ensures Collected(listing, Start(shards, id))
  {
  }

  // ---------------------------------------------------------------------------
  // The loop body as written appends the posts of a malformed page.

  /** The loop body exactly as v1.py runs it: `posts.extend(...)` consumes the
      generator one entry at a time, so when entry `i` raises KeyError the
      `i` entries before it are already appended, while `visited_pages` is not
      incremented and the same page is requested again. */
  function StepAsWritten(s: Shard, resp: PageResponse): (t: Shard)
    ensures t.visited == Step(s, resp).visited && t.finished == Step(s, resp).finished
    ensures !resp.Malformed? ==> t == Step(s, resp)
    ensures !s.finished && resp.Malformed? ==> t == s.(posts := s.posts + resp.prefix)
  {
    if s.finished then s
    else match resp
      case Listing(_) => Step(s, resp)
      case Malformed(prefix) => s.(posts := s.posts + prefix)
      case RequestError => s
  }

  /** A page whose second entry lacks `md5` on the first request and is
      whole on the retry leaves its first post in the shard twice when the
      loop body runs as written, and once with the atomic step. */
  lemma PartialPageDuplicates(p: Post, q: Post)
    ensures var s0 := Start(1, 1);
      var s1 := StepAsWritten(s0, Malformed([p]));
      && NextPage(s1) == NextPage(s0)
      && StepAsWritten(s1, Listing([p, q])).posts == [p, p, q]
      && multiset(StepAsWritten(s1, Listing([p, q])).posts)[p] == multiset([p, q])[p] + 1
      && Step(Step(s0, Malformed([p])), Listing([p, q])).posts == [p, q]
  {
    var s1 := StepAsWritten(Start(1, 1), Malformed([p]));
    assert s1.posts == [p];
    assert [p] + [p, q] == [p, p, q];
    assert multiset([p, p, q]) == multiset([p, q]) + multiset{p};
  }

  /** The shard loop with the loop body as written. */
  function RunAsWritten(s: Shard, responses: seq<PageResponse>): (t: Shard)
    ensures t.shards == s.shards && t.id == s.id
    ensures t.visited >= s.visited && s.posts <= t.posts
    decreases |responses|
  {
    if |responses| == 0 || s.finished then s
    else RunAsWritten(StepAsWritten(s, responses[0]), responses[1..])
  }

  /** Without a malformed page the loop as written is the atomic loop. */
  lemma {:induction false} RunAsWrittenAgrees(s: Shard, responses: seq<PageResponse>)
    requires forall i :: 0 <= i < |responses| ==> !responses[i].Malformed?
    ensures RunAsWritten(s, responses) == Run(s, responses)
    decreases |responses|
  {
    if |responses| > 0 && !s.finished {
      RunAsWrittenAgrees(Step(s, responses[0]), responses[1..]);
    }
  }

  /** The loop body as written breaks the shard invariant that the atomic
      step keeps: on a listing whose first page is `[p, q]`, a malformed
      first response leaves `p` gathered though no page was taken. */
  lemma AsWrittenBreaksCollected(p: Post, q: Post)
    ensures var listing := (n: nat) => if n == 1 then [p, q] else [];
      var s0 := Start(1, 1);
      && Collected(listing, s0)
      && FaithfulResponse(listing, s0, Malformed([p]))
      && Collected(listing, Step(s0, Malformed([p])))
      && !Collected(listing, StepAsWritten(s0, Malformed([p])))
  {
    var listing := (n: nat) => if n == 1 then [p, q] else [];
    var s1 := StepAsWritten(Start(1, 1), Malformed([p]));
    assert s1.posts == [p] && s1.visited == 0;
    assert Contents(listing, 1, 1, 0) == [];
  }
}
