/** The download stage (`download_queue` and its worker
    `download_posts_from_queue`). The worker pool is modelled as one
    sequential pass over the queue; the network is an oracle and the
    filesystem is the set of image paths that already exist. */
module Download {
  import opened Wrappers
  import opened Posts
  import opened Naming
  import Sharding

  /** RETRY_COUNT: how many times a post's image download is tried. */
  const RETRY_COUNT: nat := 100

  /** The settings at the top of v1.py that the download stage reads.
      SAVE_THUMBNAILS is read where listing entries are converted. */
  datatype Config = Config(saveMetadata: bool, saveImages: bool, retryCount: nat)

  /** SAVE_METADATA, SAVE_IMAGES and RETRY_COUNT as shipped. */
  const DEFAULTS: Config := Config(true, true, RETRY_COUNT)

  /** The list a post ends up in. */
  datatype Outcome = Successful | Failed | Skipped

  /** The network as the worker sees it. `resolve` is `get_deleted_post_image`
      (None when it raises: an HTTP error or no URL in the page).
      `attemptOk(post, i)` says whether try number `i` of fetching and
      writing the post's image goes through without an exception. */
  datatype Network = Network(resolve: Post -> Option<string>, attemptOk: (Post, nat) -> bool)

  // ---------------------------------------------------------------------------
  // The retry loop.

  /** The first succeeding try among `from .. retryCount - 1`, if any. */
  function FirstSuccess(ok: nat -> bool, from: nat, retryCount: nat): (r: Option<nat>)
    ensures r.Some? ==> from <= r.value < retryCount && ok(r.value)
    ensures r.Some? ==> forall i :: from <= i < r.value ==> !ok(i)
    ensures r.None? ==> forall i :: from <= i < retryCount ==> !ok(i)
    decreases retryCount - from
  {
    if from >= retryCount then None
    else if ok(from) then Some(from)
    else FirstSuccess(ok, from + 1, retryCount)
  }

  /** The `for try_nbr in range(RETRY_COUNT): ... break ... else:` loop:
      stops at the first try that succeeds, and reports failure only after
      every one of the `retryCount` tries failed. */
  method RetryLoop(retryCount: nat, ok: nat -> bool) returns (succeeded: bool, tries: nat)
    ensures tries <= retryCount
    ensures succeeded ==> tries >= 1 && ok(tries - 1)
    ensures succeeded ==> forall i :: 0 <= i < tries - 1 ==> !ok(i)
    ensures !succeeded ==> tries == retryCount && forall i :: 0 <= i < retryCount ==> !ok(i)
    ensures succeeded <==> FirstSuccess(ok, 0, retryCount).Some?
    ensures succeeded ==> tries == FirstSuccess(ok, 0, retryCount).value + 1
  {
    tries := 0;
    succeeded := false;
    while tries < retryCount
      invariant tries <= retryCount
      invariant forall i :: 0 <= i < tries ==> !ok(i)
    {
      var attempt := ok(tries);
      tries := tries + 1;
      if attempt {
        succeeded := true;
        return;
      }
    }
  }

  // ---------------------------------------------------------------------------
  // One post.

  /** What the worker did with one post: the post with its URL filled in,
      the list it joined, the tries made, the image path it checked, and the
      metadata file it wrote (None when metadata saving is off). */
  datatype Handled = Handled(post: Post, outcome: Outcome, attempts: nat, imagePath: string,
                             metadataPath: Option<string>)

  /** The image URL the worker downloads: the post's own, or for a deleted
      post the resolved one (None when resolution raises). */
  function ImageUrl(post: Post, net: Network): (url: Option<string>)
    ensures post.imageUrl.Some? ==> url == post.imageUrl
    ensures post.imageUrl.None? ==> url == net.resolve(post)
  {
    if post.imageUrl.Some? then post.imageUrl else net.resolve(post)
  }

  /** The body of the worker loop for one dequeued post. None when resolving
      a deleted post's URL raises: the exception ends the worker thread and
      the post is never classified. */
  function ProcessPost(cfg: Config, folder: string, post: Post, net: Network, disk: set<string>)
    : (r: Option<Handled>)
    ensures r.None? <==> ImageUrl(post, net).None?
    ensures r.Some? ==>
      && r.value.post == post.(imageUrl := ImageUrl(post, net))
      && r.value.imagePath == ImagePath(folder, Stem(post.id, post.md5), Extension(ImageUrl(post, net).value))
      && (r.value.outcome == Skipped <==> !cfg.saveImages || r.value.imagePath in disk)
  {
    match ImageUrl(post, net)
    case None => None
    case Some(url) =>
      var resolved := post.(imageUrl := Some(url));
      var stem := Stem(post.id, post.md5);
      var path := ImagePath(folder, stem, Extension(url));
      var meta := if cfg.saveMetadata then Some(MetadataPath(folder, stem)) else None;
      if !cfg.saveImages || path in disk then
        Some(Handled(resolved, Skipped, 0, path, meta))
      else
        match FirstSuccess((i: nat) => net.attemptOk(resolved, i), 0, cfg.retryCount)
        case Some(i) => Some(Handled(resolved, Successful, i + 1, path, meta))
        case None => Some(Handled(resolved, Failed, cfg.retryCount, path, meta))
  }

  /** The classification rules: a skipped post makes no try; a successful
      one stops at its first succeeding try; a failed one made all
      `retryCount` tries and every one failed; the metadata file is written
      whatever the outcome when metadata saving is on. */
  lemma Classification(cfg: Config, folder: string, post: Post, net: Network, disk: set<string>)
    requires ProcessPost(cfg, folder, post, net, disk).Some?
    ensures var h := ProcessPost(cfg, folder, post, net, disk).value;
      && (h.outcome == Skipped ==> h.attempts == 0)
      && (h.outcome == Successful ==>
            && 1 <= h.attempts <= cfg.retryCount
            && net.attemptOk(h.post, h.attempts - 1)
            && forall i :: 0 <= i < h.attempts - 1 ==> !net.attemptOk(h.post, i))
      && (h.outcome == Failed ==>
            && h.attempts == cfg.retryCount
            && forall i :: 0 <= i < cfg.retryCount ==> !net.attemptOk(h.post, i))
      && (h.metadataPath.Some? <==> cfg.saveMetadata)
      && (h.metadataPath.Some? ==> h.metadataPath.value == MetadataPath(folder, Stem(post.id, post.md5)))
  {
    var url := ImageUrl(post, net).value;
    var resolved := post.(imageUrl := Some(url));
    var ok := (i: nat) => net.attemptOk(resolved, i);
    assert forall i: nat :: ok(i) == net.attemptOk(resolved, i);
  }

  /** A post that is retried fails after exactly `retryCount` tries when every
      try fails; with no tries allowed it fails without any. */
  lemma RetryBound(cfg: Config, folder: string, post: Post, net: Network, disk: set<string>)
    requires ImageUrl(post, net).Some?
    requires cfg.saveImages
    requires ImagePath(folder, Stem(post.id, post.md5), Extension(ImageUrl(post, net).value)) !in disk
    requires forall i :: 0 <= i < cfg.retryCount ==>
      !net.attemptOk(post.(imageUrl := ImageUrl(post, net)), i)
    ensures var r := ProcessPost(cfg, folder, post, net, disk);
      r.Some? && r.value.outcome == Failed && r.value.attempts == cfg.retryCount
  {
  }

  /** Under the shipped settings a failed post was tried 100 times, every
      try failing, and every handled post has its metadata file written. */
  lemma ShippedSettings(folder: string, post: Post, net: Network, disk: set<string>)
    requires ProcessPost(DEFAULTS, folder, post, net, disk).Some?
    ensures var h := ProcessPost(DEFAULTS, folder, post, net, disk).value;
      && (h.outcome == Failed ==> h.attempts == 100 && forall i :: 0 <= i < 100 ==> !net.attemptOk(h.post, i))
      && h.metadataPath == Some(MetadataPath(folder, Stem(post.id, post.md5)))
  {
    Classification(DEFAULTS, folder, post, net, disk);
  }

  // ---------------------------------------------------------------------------
  // Draining the queue.

  /** The three result lists of `download_queue`. */
  datatype Tally = Tally(successful: seq<Post>, failed: seq<Post>, skipped: seq<Post>)

  /** `len(successful) + len(failed) + len(skipped)`. */
  function Done(t: Tally): nat {
    |t.successful| + |t.failed| + |t.skipped|
  }

  /** The list of the given outcome. */
  function List(t: Tally, o: Outcome): seq<Post> {
    match o
    case Successful => t.successful
    case Failed => t.failed
    case Skipped => t.skipped
  }

  /** Puts a handled post at the front of the list of its outcome; the other
      two lists are unchanged. */
  function Record(h: Handled, t: Tally): (t': Tally)
    ensures Done(t') == Done(t) + 1
    ensures List(t', h.outcome) == [h.post] + List(t, h.outcome)
    ensures forall o :: o != h.outcome ==> List(t', o) == List(t, o)
  {
    match h.outcome
    case Successful => t.(successful := [h.post] + t.successful)
    case Failed => t.(failed := [h.post] + t.failed)
    case Skipped => t.(skipped := [h.post] + t.skipped)
  }

  /** The state after the workers stop: the three lists, the posts whose
      resolution raised, the posts left in the queue, the image paths on
      disk, and the metadata files written, all in processing order. */
  datatype Drained = Drained(tally: Tally, aborted: seq<Post>, unprocessed: seq<Post>,
                             disk: set<string>, metadataWritten: seq<string>)

  /** The worker loop body as the pass over the queue sees it: a post and
      the current disk give what the worker did with it. */
  type Step = (Post, set<string>) -> Option<Handled>

  /** The step of `download_posts_from_queue` under the given settings. */
  function Worker(cfg: Config, folder: string, net: Network): Step {
    (p: Post, d: set<string>) => ProcessPost(cfg, folder, p, net, d)
  }

  /** The workers draining the queue, one post at a time. Each raise during
      resolution ends one of the `workers` threads; once none is left, the
      rest of the queue stays unprocessed. A successful download adds its
      image path to the disk. */
  function Drain(step: Step, workers: nat, queue: seq<Post>, disk: set<string>): (r: Drained)
    ensures Done(r.tally) + |r.aborted| + |r.unprocessed| == |queue|
    decreases |queue|
  {
    if |queue| == 0 || workers == 0 then Drained(Tally([], [], []), [], queue, disk, [])
    else match step(queue[0], disk)
      case None =>
        var rest := Drain(step, workers - 1, queue[1..], disk);
        rest.(aborted := [queue[0]] + rest.aborted)
      case Some(h) =>
        var disk' := if h.outcome == Successful then disk + {h.imagePath} else disk;
        var rest := Drain(step, workers, queue[1..], disk');
        var written := if h.metadataPath.Some? then [h.metadataPath.value] else [];
        rest.(tally := Record(h, rest.tally), metadataWritten := written + rest.metadataWritten)
  }

  /** `download_queue`: THREAD_COUNT workers drain the queue; `total_posts`
      is the queue's size when downloading starts. */
  function DownloadQueue(cfg: Config, folder: string, net: Network, queue: seq<Post>, disk: set<string>)
    : (r: (Drained, nat))
    ensures r.1 == |queue|
    ensures Done(r.0.tally) <= r.1
  {
    (Drain(Worker(cfg, folder, net), Sharding.THREAD_COUNT, queue, disk), |queue|)
  }

  /** Files are only ever added: the disk after draining contains the disk
      before, and the aborted and unprocessed posts fit the worker budget. */
  lemma {:induction false} DrainShape(step: Step, workers: nat, queue: seq<Post>, disk: set<string>)
    ensures var r := Drain(step, workers, queue, disk);
      && disk <= r.disk
      && |r.aborted| <= workers
      && (r.unprocessed != [] ==> |r.aborted| == workers)
      && r.unprocessed == queue[|queue| - |r.unprocessed|..]
    decreases |queue|, 1
  {
    if |queue| == 0 || workers == 0 {
      assert Drain(step, workers, queue, disk) == Drained(Tally([], [], []), [], queue, disk, []);
    } else if step(queue[0], disk).None? {
      AbortShape(step, workers, queue, disk);
    } else {
      HandleShape(step, workers, queue, disk);
    }
  }

  /** The step of DrainShape for a post whose resolution raises. */
  lemma {:induction false} AbortShape(step: Step, workers: nat, queue: seq<Post>, disk: set<string>)
    requires |queue| > 0 && workers > 0 && step(queue[0], disk).None?
    ensures var r := Drain(step, workers, queue, disk);
      && disk <= r.disk
      && |r.aborted| <= workers
      && (r.unprocessed != [] ==> |r.aborted| == workers)
      && r.unprocessed == queue[|queue| - |r.unprocessed|..]
    decreases |queue|, 0
  {
    AbortStep(step, workers, queue, disk);
    DrainShape(step, workers - 1, queue[1..], disk);
    var rest := Drain(step, workers - 1, queue[1..], disk);
    assert queue[1..][|queue[1..]| - |rest.unprocessed|..] == queue[|queue| - |rest.unprocessed|..];
  }

  /** The step of DrainShape for a post the worker handles. */
  lemma {:induction false} HandleShape(step: Step, workers: nat, queue: seq<Post>, disk: set<string>)
    requires |queue| > 0 && workers > 0 && step(queue[0], disk).Some?
    ensures var r := Drain(step, workers, queue, disk);
      && disk <= r.disk
      && |r.aborted| <= workers
      && (r.unprocessed != [] ==> |r.aborted| == workers)
      && r.unprocessed == queue[|queue| - |r.unprocessed|..]
    decreases |queue|, 0
  {
    var h := step(queue[0], disk).value;
    var disk' := if h.outcome == Successful then disk + {h.imagePath} else disk;
    HandleStep(step, workers, queue, disk);
    DrainShape(step, workers, queue[1..], disk');
    var rest := Drain(step, workers, queue[1..], disk');
    assert queue[1..][|queue[1..]| - |rest.unprocessed|..] == queue[|queue| - |rest.unprocessed|..];
  }

  // ---------------------------------------------------------------------------
  // Each list holds only posts that earned its outcome.

  /** What being in the list of outcome `o` says about a post, given the
      disk once the workers stop: its URL is known; a successful post had a
      succeeding try and its image is on disk; a failed post had every one
      of the `retryCount` tries fail; a skipped post was not downloaded
      because image saving is off or its image is on disk. */
  predicate Earned(cfg: Config, folder: string, net: Network, o: Outcome, p: Post, disk: set<string>) {
    && p.imageUrl.Some?
    && var path := ImagePath(folder, Stem(p.id, p.md5), Extension(p.imageUrl.value));
    match o
    case Successful =>
      cfg.saveImages && path in disk && exists i :: 0 <= i < cfg.retryCount && net.attemptOk(p, i)
    case Failed =>
      cfg.saveImages && forall i :: 0 <= i < cfg.retryCount ==> !net.attemptOk(p, i)
    case Skipped =>
      !cfg.saveImages || path in disk
  }

  /** Every post of every list earned the list's outcome. */
  predicate TallyEarned(cfg: Config, folder: string, net: Network, t: Tally, disk: set<string>) {
    forall o, j :: 0 <= j < |List(t, o)| ==> Earned(cfg, folder, net, o, List(t, o)[j], disk)
  }

  /** The worker files a post under an outcome it earned. */
  lemma HandledEarned(cfg: Config, folder: string, net: Network, post: Post, disk: set<string>)
    requires ProcessPost(cfg, folder, post, net, disk).Some?
    ensures var h := ProcessPost(cfg, folder, post, net, disk).value;
      Earned(cfg, folder, net, h.outcome, h.post, After(h, disk))
  {
    Classification(cfg, folder, post, net, disk);
  }

  /** Files are never removed, so what a post earned stays earned. */
  lemma EarnedGrows(cfg: Config, folder: string, net: Network, o: Outcome, p: Post,
                    disk: set<string>, disk': set<string>)
    requires Earned(cfg, folder, net, o, p, disk) && disk <= disk'
    ensures Earned(cfg, folder, net, o, p, disk')
  {
  }

  /** The disk after the worker handled a post: a successful download adds
      the image. */
  function After(h: Handled, disk: set<string>): (d: set<string>)
    ensures disk <= d && d <= disk + {h.imagePath}
    ensures h.outcome == Successful ==> h.imagePath in d
    ensures h.outcome != Successful ==> d == disk
  {
    if h.outcome == Successful then disk + {h.imagePath} else disk
  }

  // The drain is proved against any test of what a post must have done to
  // join a list, so that the proof does not unfold the worker.

  /** What a post in a list must satisfy, given the outcome and the disk. */
  type Claim = (Outcome, Post, set<string>) -> bool

  /** `claim` holds of every post of every list. */
  ghost predicate AllClaimed(claim: Claim, t: Tally, disk: set<string>) {
    forall o, j :: 0 <= j < |List(t, o)| ==> claim(o, List(t, o)[j], disk)
  }

  /** Adding files keeps the claim. */
  ghost predicate Persistent(claim: Claim) {
    forall o, p, d, d' :: d <= d' && claim(o, p, d) ==> claim(o, p, d')
  }

  /** Every post the step handles meets the claim for its outcome. */
  ghost predicate StepClaims(step: Step, claim: Claim) {
    forall p, d :: step(p, d).Some? ==>
      claim(step(p, d).value.outcome, step(p, d).value.post, After(step(p, d).value, d))
  }

  lemma RecordClaimed(claim: Claim, h: Handled, t: Tally, disk: set<string>)
    requires AllClaimed(claim, t, disk) && claim(h.outcome, h.post, disk)
    ensures AllClaimed(claim, Record(h, t), disk)
  {
    var t' := Record(h, t);
    forall o, j | 0 <= j < |List(t', o)| ensures claim(o, List(t', o)[j], disk) {
      if o == h.outcome && j > 0 {
        assert List(t', o)[j] == List(t, o)[j - 1];
      }
    }
  }

  /** A claim every step meets holds of the lists after the drain. */
  lemma {:induction false} DrainClaimed(step: Step, claim: Claim, workers: nat,
                                       queue: seq<Post>, disk: set<string>)
    requires StepClaims(step, claim) && Persistent(claim)
    ensures var r := Drain(step, workers, queue, disk);
      AllClaimed(claim, r.tally, r.disk)
    decreases |queue|, 1
  {
    if |queue| == 0 || workers == 0 {
      var e: seq<Post> := [];
      assert Drain(step, workers, queue, disk).tally == Tally(e, e, e);
    } else if step(queue[0], disk).None? {
      AbortClaimed(step, claim, workers, queue, disk);
    } else {
      HandleClaimed(step, claim, workers, queue, disk);
    }
  }

  /** The step of DrainClaimed for a post whose resolution raises. */
  lemma {:induction false} AbortClaimed(step: Step, claim: Claim, workers: nat,
                                       queue: seq<Post>, disk: set<string>)
    requires StepClaims(step, claim) && Persistent(claim)
    requires |queue| > 0 && workers > 0 && step(queue[0], disk).None?
    ensures var r := Drain(step, workers, queue, disk);
      AllClaimed(claim, r.tally, r.disk)
    decreases |queue|, 0
  {
    AbortStep(step, workers, queue, disk);
    DrainClaimed(step, claim, workers - 1, queue[1..], disk);
  }

  /** The step of DrainClaimed for a post the worker handles. */
  lemma {:induction false} HandleClaimed(step: Step, claim: Claim, workers: nat,
                                        queue: seq<Post>, disk: set<string>)
    requires StepClaims(step, claim) && Persistent(claim)
    requires |queue| > 0 && workers > 0 && step(queue[0], disk).Some?
    ensures var r := Drain(step, workers, queue, disk);
      AllClaimed(claim, r.tally, r.disk)
    decreases |queue|, 0
  {
    var h := step(queue[0], disk).value;
    var disk' := After(h, disk);
    var rest := Drain(step, workers, queue[1..], disk');
    HandleStep(step, workers, queue, disk);
    DrainClaimed(step, claim, workers, queue[1..], disk');
    DrainShape(step, workers, queue[1..], disk');
    assert claim(h.outcome, h.post, rest.disk);
    RecordClaimed(claim, h, rest.tally, rest.disk);
    assert Drain(step, workers, queue, disk).disk == rest.disk;
  }

  /** Earned, as a claim. */
  function EarnedClaim(cfg: Config, folder: string, net: Network): Claim {
    (o: Outcome, p: Post, d: set<string>) => Earned(cfg, folder, net, o, p, d)
  }

  lemma WorkerClaims(cfg: Config, folder: string, net: Network)
    ensures StepClaims(Worker(cfg, folder, net), EarnedClaim(cfg, folder, net))
    ensures Persistent(EarnedClaim(cfg, folder, net))
  {
    forall p, d | Worker(cfg, folder, net)(p, d).Some?
      ensures var h := Worker(cfg, folder, net)(p, d).value;
        Earned(cfg, folder, net, h.outcome, h.post, After(h, d))
    {
      HandledEarned(cfg, folder, net, p, d);
    }
    forall o, p, d: set<string>, d': set<string> | d <= d' && Earned(cfg, folder, net, o, p, d)
      ensures Earned(cfg, folder, net, o, p, d')
    {
      EarnedGrows(cfg, folder, net, o, p, d, d');
    }
  }

  /** After the drain, every post in the successful, failed and skipped
      lists earned that outcome. */
  lemma DrainEarned(cfg: Config, folder: string, net: Network, workers: nat,
                    queue: seq<Post>, disk: set<string>)
    ensures var r := Drain(Worker(cfg, folder, net), workers, queue, disk);
      TallyEarned(cfg, folder, net, r.tally, r.disk)
  {
    var r := Drain(Worker(cfg, folder, net), workers, queue, disk);
    WorkerClaims(cfg, folder, net);
    DrainClaimed(Worker(cfg, folder, net), EarnedClaim(cfg, folder, net), workers, queue, disk);
    forall o, j | 0 <= j < |List(r.tally, o)|
      ensures Earned(cfg, folder, net, o, List(r.tally, o)[j], r.disk)
    {
      assert EarnedClaim(cfg, folder, net)(o, List(r.tally, o)[j], r.disk);
    }
  }

  /** `download_queue` returns lists whose every post earned its outcome:
      a failed post had all `retryCount` tries fail, a successful one had a
      try succeed and its image is on disk, a skipped one was not wanted or
      already there. */
  lemma DownloadEarned(cfg: Config, folder: string, net: Network, queue: seq<Post>, disk: set<string>)
    ensures var r := DownloadQueue(cfg, folder, net, queue, disk).0;
      TallyEarned(cfg, folder, net, r.tally, r.disk)
  {
    DrainEarned(cfg, folder, net, Sharding.THREAD_COUNT, queue, disk);
  }

  // ---------------------------------------------------------------------------
  // Nothing lost, nothing counted twice.

  /** What identifies a post: its id and md5 (its URL may be filled in). */
  function Key(p: Post): (int, string) {
    (p.id, p.md5)
  }

  function Keys(ps: seq<Post>): (ks: multiset<(int, string)>)
    ensures |ks| == |ps|
    decreases |ps|
  {
    if |ps| == 0 then multiset{} else multiset{Key(ps[0])} + Keys(ps[1..])
  }

  /** How many posts of `ps` carry the key `k`. */
  function Count(k: (int, string), ps: seq<Post>): (n: nat)
    ensures n <= |ps|
    decreases |ps|
  {
    if |ps| == 0 then 0 else Hit(k, ps[0]) + Count(k, ps[1..])
  }

  function Hit(k: (int, string), p: Post): nat {
    if Key(p) == k then 1 else 0
  }

  /** The multiset of keys holds each key as often as the posts carry it. */
  lemma {:induction false} KeysCount(ps: seq<Post>, k: (int, string))
    ensures Keys(ps)[k] == Count(k, ps)
    decreases |ps|
  {
    if |ps| > 0 {
      KeysCount(ps[1..], k);
    }
  }

  lemma CountPrepend(k: (int, string), p: Post, ps: seq<Post>)
    ensures Count(k, [p] + ps) == Hit(k, p) + Count(k, ps)
  {
    assert ([p] + ps)[1..] == ps;
  }

  /** The keys of the posts in the three lists. */
  function TallyKeys(t: Tally): multiset<(int, string)> {
    Keys(t.successful) + Keys(t.failed) + Keys(t.skipped)
  }

  /** How many posts with key `k` the three lists hold. */
  function TallyCount(k: (int, string), t: Tally): nat {
    Count(k, t.successful) + Count(k, t.failed) + Count(k, t.skipped)
  }

  /** Recording a post adds it to exactly one list. */
  lemma RecordCount(h: Handled, t: Tally, k: (int, string))
    ensures TallyCount(k, Record(h, t)) == Hit(k, h.post) + TallyCount(k, t)
  {
    match h.outcome
    case Successful => CountPrepend(k, h.post, t.successful);
    case Failed => CountPrepend(k, h.post, t.failed);
    case Skipped => CountPrepend(k, h.post, t.skipped);
  }

  /** A step that hands back the post it was given, URL aside. */
  ghost predicate KeepsKeys(step: Step) {
    forall p: Post, d: set<string> :: step(p, d).Some? ==> Key(step(p, d).value.post) == Key(p)
  }

  /** The worker only fills in the post's URL. */
  lemma WorkerKeepsKeys(cfg: Config, folder: string, net: Network)
    ensures KeepsKeys(Worker(cfg, folder, net))
  {
    forall p: Post, d: set<string> | Worker(cfg, folder, net)(p, d).Some?
      ensures Key(Worker(cfg, folder, net)(p, d).value.post) == Key(p)
    {
      assert Worker(cfg, folder, net)(p, d) == ProcessPost(cfg, folder, p, net, d);
    }
  }

  /** The keys of the posts the drain has put somewhere. */
  function Placed(r: Drained): multiset<(int, string)> {
    TallyKeys(r.tally) + Keys(r.aborted) + Keys(r.unprocessed)
  }

  /** How many posts with key `k` the drain has put somewhere. */
  function PlacedCount(k: (int, string), r: Drained): nat {
    TallyCount(k, r.tally) + Count(k, r.aborted) + Count(k, r.unprocessed)
  }

  lemma PlacedCounts(r: Drained, k: (int, string))
    ensures Placed(r)[k] == PlacedCount(k, r)
  {
    KeysCount(r.tally.successful, k);
    KeysCount(r.tally.failed, k);
    KeysCount(r.tally.skipped, k);
    KeysCount(r.aborted, k);
    KeysCount(r.unprocessed, k);
  }

  /** Every dequeued post lands in exactly one place: one of the three
      lists, the aborted posts, or the rest of the queue. */
  lemma DrainConserves(step: Step, workers: nat, queue: seq<Post>, disk: set<string>)
    requires KeepsKeys(step)
    ensures Placed(Drain(step, workers, queue, disk)) == Keys(queue)
  {
    var r := Drain(step, workers, queue, disk);
    forall k: (int, string) ensures Placed(r)[k] == Keys(queue)[k] {
      DrainCounts(step, workers, queue, disk, k);
      PlacedCounts(r, k);
      KeysCount(queue, k);
    }
  }

  /** Conservation one key at a time: the posts with key `k` that were
      queued are exactly the ones placed. */
  lemma {:induction false} DrainCounts(step: Step, workers: nat, queue: seq<Post>, disk: set<string>, k: (int, string))
    requires KeepsKeys(step)
    ensures PlacedCount(k, Drain(step, workers, queue, disk)) == Count(k, queue)
    decreases |queue|, 1
  {
    if |queue| == 0 || workers == 0 {
      NothingDrained(step, workers, queue, disk, k);
    } else if step(queue[0], disk).None? {
      AbortCounts(step, workers, queue, disk, k);
    } else {
      HandleCounts(step, workers, queue, disk, k);
    }
  }

  /** The step of DrainCounts where resolving the first post raises. */
  lemma {:induction false} AbortCounts(step: Step, workers: nat, queue: seq<Post>, disk: set<string>, k: (int, string))
    requires |queue| > 0 && workers > 0 && step(queue[0], disk).None?
    requires KeepsKeys(step)
    ensures PlacedCount(k, Drain(step, workers, queue, disk)) == Count(k, queue)
    decreases |queue|, 0
  {
    DrainCounts(step, workers - 1, queue[1..], disk, k);
    var rest := Drain(step, workers - 1, queue[1..], disk);
    AbortStep(step, workers, queue, disk);
    CountPrepend(k, queue[0], rest.aborted);
  }

  /** The step of DrainCounts where the first post is classified. */
  lemma {:induction false} HandleCounts(step: Step, workers: nat, queue: seq<Post>, disk: set<string>, k: (int, string))
    requires |queue| > 0 && workers > 0 && step(queue[0], disk).Some?
    requires KeepsKeys(step)
    ensures PlacedCount(k, Drain(step, workers, queue, disk)) == Count(k, queue)
    decreases |queue|, 0
  {
    var h := step(queue[0], disk).value;
    var disk' := if h.outcome == Successful then disk + {h.imagePath} else disk;
    DrainCounts(step, workers, queue[1..], disk', k);
    var rest := Drain(step, workers, queue[1..], disk');
    HandleStep(step, workers, queue, disk);
    RecordCount(h, rest.tally, k);
  }

  /** One unfolding of Drain when resolving the first post raises. */
  lemma AbortStep(step: Step, workers: nat, queue: seq<Post>, disk: set<string>)
    requires |queue| > 0 && workers > 0 && step(queue[0], disk).None?
    ensures var r := Drain(step, workers, queue, disk);
      var rest := Drain(step, workers - 1, queue[1..], disk);
      && r.tally == rest.tally && r.aborted == [queue[0]] + rest.aborted && r.unprocessed == rest.unprocessed
      && r.disk == rest.disk && r.metadataWritten == rest.metadataWritten
  {
  }

  /** One unfolding of Drain when the first post is classified. */
  lemma HandleStep(step: Step, workers: nat, queue: seq<Post>, disk: set<string>)
    requires |queue| > 0 && workers > 0 && step(queue[0], disk).Some?
    ensures var h := step(queue[0], disk).value;
      var disk' := if h.outcome == Successful then disk + {h.imagePath} else disk;
      var r := Drain(step, workers, queue, disk);
      var rest := Drain(step, workers, queue[1..], disk');
      && r.tally == Record(h, rest.tally) && r.aborted == rest.aborted && r.unprocessed == rest.unprocessed
      && r.disk == rest.disk
      && r.metadataWritten == (if h.metadataPath.Some? then [h.metadataPath.value] else []) + rest.metadataWritten
  {
  }

  /** With no post or no worker left, nothing is classified or aborted. */
  lemma NothingDrained(step: Step, workers: nat, queue: seq<Post>, disk: set<string>, k: (int, string))
    requires |queue| == 0 || workers == 0
    ensures PlacedCount(k, Drain(step, workers, queue, disk)) == Count(k, queue)
  {
    var e: seq<Post> := [];
    assert Drain(step, workers, queue, disk) == Drained(Tally(e, e, e), e, queue, disk, []);
  }

  /** `download_queue` loses no post and counts none twice. */
  lemma DownloadConserves(cfg: Config, folder: string, net: Network, queue: seq<Post>, disk: set<string>)
    ensures var r := DownloadQueue(cfg, folder, net, queue, disk).0;
      TallyKeys(r.tally) + Keys(r.aborted) + Keys(r.unprocessed) == Keys(queue)
  {
    WorkerKeepsKeys(cfg, folder, net);
    DrainConserves(Worker(cfg, folder, net), Sharding.THREAD_COUNT, queue, disk);
    var r := DownloadQueue(cfg, folder, net, queue, disk).0;
    assert Placed(r) == Keys(queue);
  }

  /** When every step goes through and there is at least one worker, the
      queue is drained and the three lists together hold every post. */
  lemma {:induction false} DrainComplete(step: Step, workers: nat, queue: seq<Post>, disk: set<string>)
    requires workers >= 1
    requires forall i, d :: 0 <= i < |queue| ==> step(queue[i], d).Some?
    ensures var r := Drain(step, workers, queue, disk);
      r.aborted == [] && r.unprocessed == [] && Done(r.tally) == |queue|
    decreases |queue|
  {
    if |queue| > 0 {
      var h := step(queue[0], disk).value;
      var disk' := if h.outcome == Successful then disk + {h.imagePath} else disk;
      forall i, d | 0 <= i < |queue[1..]| ensures step(queue[1..][i], d).Some? {
        assert queue[1..][i] == queue[i + 1];
      }
      DrainComplete(step, workers, queue[1..], disk');
    }
  }

  /** When every deleted post's URL resolves, `download_queue` classifies
      all `total_posts` posts. */
  lemma DownloadComplete(cfg: Config, folder: string, net: Network, queue: seq<Post>, disk: set<string>)
    requires forall i :: 0 <= i < |queue| ==> ImageUrl(queue[i], net).Some?
    ensures var r := DownloadQueue(cfg, folder, net, queue, disk);
      r.0.aborted == [] && r.0.unprocessed == [] && Done(r.0.tally) == r.1
  {
    var step := Worker(cfg, folder, net);
    forall i, d | 0 <= i < |queue| ensures step(queue[i], d).Some? {
      assert step(queue[i], d) == ProcessPost(cfg, folder, queue[i], net, d);
    }
    DrainComplete(step, Sharding.THREAD_COUNT, queue, disk);
  }

  // ---------------------------------------------------------------------------
  // The files the drain writes.

  /** The files `path` names for the posts of `ps`. */
  function Files(path: Post -> string, ps: seq<Post>): set<string>
    decreases |ps|
  {
    if |ps| == 0 then {} else {path(ps[0])} + Files(path, ps[1..])
  }

  /** A file is named for the posts exactly when it is named for one of them. */
  lemma {:induction false} FilesMember(path: Post -> string, ps: seq<Post>, f: string)
    ensures f in Files(path, ps) <==> exists j :: 0 <= j < |ps| && f == path(ps[j])
    decreases |ps|
  {
    if |ps| > 0 {
      FilesMember(path, ps[1..], f);
      if exists j :: 0 <= j < |ps| && f == path(ps[j]) {
        var j :| 0 <= j < |ps| && f == path(ps[j]);
        if j > 0 {
          assert ps[1..][j - 1] == ps[j];
        }
      }
      if exists j :: 0 <= j < |ps[1..]| && f == path(ps[1..][j]) {
        var j :| 0 <= j < |ps[1..]| && f == path(ps[1..][j]);
        assert ps[1..][j] == ps[j + 1];
      }
    }
  }

  lemma FilesPrepend(path: Post -> string, p: Post, ps: seq<Post>)
    ensures Files(path, [p] + ps) == {path(p)} + Files(path, ps)
  {
    assert ([p] + ps)[1..] == ps;
  }

  /** The names listed in `ws`. */
  function Names(ws: seq<string>): set<string>
    decreases |ws|
  {
    if |ws| == 0 then {} else {ws[0]} + Names(ws[1..])
  }

  lemma {:induction false} NamesMember(ws: seq<string>, m: string)
    ensures m in Names(ws) <==> m in ws
    decreases |ws|
  {
    if |ws| > 0 {
      NamesMember(ws[1..], m);
      assert ws == [ws[0]] + ws[1..];
    }
  }

  lemma NamesPrepend(w: seq<string>, ws: seq<string>)
    requires |w| <= 1
    ensures Names(w + ws) == Names(w) + Names(ws)
  {
    if |w| == 1 {
      assert (w + ws)[1..] == ws;
      assert (w + ws)[0] == w[0];
      assert w[1..] == [];
    } else {
      assert w + ws == ws;
    }
  }

  /** The files named for the posts of all three lists. */
  function TallyFiles(path: Post -> string, t: Tally): set<string> {
    Files(path, t.successful) + Files(path, t.failed) + Files(path, t.skipped)
  }

  /** Recording a post adds its file to the files of the lists. */
  lemma RecordFiles(path: Post -> string, h: Handled, t: Tally)
    ensures TallyFiles(path, Record(h, t)) == {path(h.post)} + TallyFiles(path, t)
    ensures Files(path, Record(h, t).successful) ==
      (if h.outcome == Successful then {path(h.post)} else {}) + Files(path, t.successful)
  {
    match h.outcome
    case Successful => FilesPrepend(path, h.post, t.successful);
    case Failed => FilesPrepend(path, h.post, t.failed);
    case Skipped => FilesPrepend(path, h.post, t.skipped);
  }

  /** A step whose image path is `image` of the post it returns. */
  ghost predicate StepImages(step: Step, image: Post -> string) {
    forall p, d :: step(p, d).Some? ==> step(p, d).value.imagePath == image(step(p, d).value.post)
  }

  /** A step whose metadata file is `meta` of the post it returns exactly
      when `writes` is set. */
  ghost predicate StepMetadata(step: Step, meta: Post -> string, writes: bool) {
    forall p, d :: step(p, d).Some? ==>
      step(p, d).value.metadataPath == (if writes then Some(meta(step(p, d).value.post)) else None)
  }

  /** The disk gains exactly the images of the successful posts. */
  lemma {:induction false} DrainDisk(step: Step, image: Post -> string, workers: nat,
                                    queue: seq<Post>, disk: set<string>)
    requires StepImages(step, image)
    ensures var r := Drain(step, workers, queue, disk);
      r.disk == disk + Files(image, r.tally.successful)
    decreases |queue|, 1
  {
    if |queue| == 0 || workers == 0 {
      var e: seq<Post> := [];
      assert Drain(step, workers, queue, disk).tally == Tally(e, e, e);
    } else if step(queue[0], disk).None? {
      AbortStep(step, workers, queue, disk);
      DrainDisk(step, image, workers - 1, queue[1..], disk);
    } else {
      HandleDisk(step, image, workers, queue, disk);
    }
  }

  /** The step of DrainDisk for a post the worker handles. */
  lemma {:induction false} HandleDisk(step: Step, image: Post -> string, workers: nat,
                                     queue: seq<Post>, disk: set<string>)
    requires StepImages(step, image)
    requires |queue| > 0 && workers > 0 && step(queue[0], disk).Some?
    ensures var r := Drain(step, workers, queue, disk);
      r.disk == disk + Files(image, r.tally.successful)
    decreases |queue|, 0
  {
    var h := step(queue[0], disk).value;
    var disk' := if h.outcome == Successful then disk + {h.imagePath} else disk;
    var rest := Drain(step, workers, queue[1..], disk');
    HandleStep(step, workers, queue, disk);
    DrainDisk(step, image, workers, queue[1..], disk');
    RecordFiles(image, h, rest.tally);
    assert h.imagePath == image(h.post);
  }

  /** One metadata file per classified post when `writes` is set, named
      for a post of the lists and naming every one; none otherwise. */
  lemma {:induction false} DrainMetadata(step: Step, meta: Post -> string, writes: bool, workers: nat,
                                        queue: seq<Post>, disk: set<string>)
    requires StepMetadata(step, meta, writes)
    ensures var r := Drain(step, workers, queue, disk);
      && |r.metadataWritten| == (if writes then Done(r.tally) else 0)
      && Names(r.metadataWritten) == (if writes then TallyFiles(meta, r.tally) else {})
    decreases |queue|, 1
  {
    if |queue| == 0 || workers == 0 {
      var e: seq<Post> := [];
      var w: seq<string> := [];
      assert Drain(step, workers, queue, disk) == Drained(Tally(e, e, e), e, queue, disk, w);
    } else if step(queue[0], disk).None? {
      AbortStep(step, workers, queue, disk);
      DrainMetadata(step, meta, writes, workers - 1, queue[1..], disk);
    } else {
      HandleMetadata(step, meta, writes, workers, queue, disk);
    }
  }

  /** The step of DrainMetadata for a post the worker handles. */
  lemma {:induction false} HandleMetadata(step: Step, meta: Post -> string, writes: bool, workers: nat,
                                         queue: seq<Post>, disk: set<string>)
    requires StepMetadata(step, meta, writes)
    requires |queue| > 0 && workers > 0 && step(queue[0], disk).Some?
    ensures var r := Drain(step, workers, queue, disk);
      && |r.metadataWritten| == (if writes then Done(r.tally) else 0)
      && Names(r.metadataWritten) == (if writes then TallyFiles(meta, r.tally) else {})
    decreases |queue|, 0
  {
    var h := step(queue[0], disk).value;
    var disk' := if h.outcome == Successful then disk + {h.imagePath} else disk;
    var rest := Drain(step, workers, queue[1..], disk');
    HandleStep(step, workers, queue, disk);
    DrainMetadata(step, meta, writes, workers, queue[1..], disk');
    RecordFiles(meta, h, rest.tally);
    var written := if h.metadataPath.Some? then [h.metadataPath.value] else [];
    NamesPrepend(written, rest.metadataWritten);
    if writes {
      assert written == [meta(h.post)];
      assert Names(written) == {meta(h.post)};
    } else {
      assert written == [];
    }
  }

  /** The image path the worker gives a post whose URL is known. */
  function ImageFile(folder: string): Post -> string {
    (p: Post) => ImagePath(folder, Stem(p.id, p.md5), Extension(if p.imageUrl.Some? then p.imageUrl.value else ""))
  }

  /** The metadata path the worker gives a post. */
  function MetadataFile(folder: string): Post -> string {
    (p: Post) => MetadataPath(folder, Stem(p.id, p.md5))
  }

  lemma WorkerFiles(cfg: Config, folder: string, net: Network)
    ensures StepImages(Worker(cfg, folder, net), ImageFile(folder))
    ensures StepMetadata(Worker(cfg, folder, net), MetadataFile(folder), cfg.saveMetadata)
  {
    forall p, d | Worker(cfg, folder, net)(p, d).Some?
      ensures var h := Worker(cfg, folder, net)(p, d).value;
        && h.imagePath == ImageFile(folder)(h.post)
        && h.metadataPath == (if cfg.saveMetadata then Some(MetadataFile(folder)(h.post)) else None)
    {
      Classification(cfg, folder, p, net, d);
    }
  }

  /** The files the workers leave. An image is added to the disk for each
      post filed as successful and for no other, so a failed post leaves no
      file and a later run retries it. When metadata saving is on, one
      metadata file is written per classified post: each is the file of a
      post in the three lists, and each such post has its file written.
      When it is off, none is written. */
  lemma DrainFiles(cfg: Config, folder: string, net: Network, workers: nat,
                   queue: seq<Post>, disk: set<string>)
    ensures var r := Drain(Worker(cfg, folder, net), workers, queue, disk);
      && r.disk == disk + KnownImages(folder, r.tally.successful)
      && |r.metadataWritten| == (if cfg.saveMetadata then Done(r.tally) else 0)
      && (forall m :: m in r.metadataWritten <==>
            cfg.saveMetadata && m in TallyFiles(MetadataFile(folder), r.tally))
  {
    var r := Drain(Worker(cfg, folder, net), workers, queue, disk);
    WorkerFiles(cfg, folder, net);
    DrainDisk(Worker(cfg, folder, net), ImageFile(folder), workers, queue, disk);
    DrainMetadata(Worker(cfg, folder, net), MetadataFile(folder), cfg.saveMetadata, workers, queue, disk);
    SuccessfulImages(cfg, folder, net, workers, queue, disk);
    forall m ensures m in r.metadataWritten <==> m in Names(r.metadataWritten) {
      NamesMember(r.metadataWritten, m);
    }
  }

  /** The images named for the successful posts, written with their URLs. */
  lemma SuccessfulImages(cfg: Config, folder: string, net: Network, workers: nat,
                         queue: seq<Post>, disk: set<string>)
    ensures var ps := Drain(Worker(cfg, folder, net), workers, queue, disk).tally.successful;
      Files(ImageFile(folder), ps) == KnownImages(folder, ps)
  {
    var r := Drain(Worker(cfg, folder, net), workers, queue, disk);
    var ps := r.tally.successful;
    DrainEarned(cfg, folder, net, workers, queue, disk);
    assert forall j :: 0 <= j < |ps| ==> ps[j].imageUrl.Some? by {
      forall j | 0 <= j < |ps| ensures ps[j].imageUrl.Some? {
        assert Earned(cfg, folder, net, Successful, List(r.tally, Successful)[j], r.disk);
      }
    }
    ImagesOfKnownUrls(folder, ps);
  }

  /** The image path built from a post's known URL. */
  function KnownImages(folder: string, ps: seq<Post>): set<string> {
    set p | p in ps && p.imageUrl.Some? :: ImagePath(folder, Stem(p.id, p.md5), Extension(p.imageUrl.value))
  }

  /** For posts whose URLs are known, the worker's image files are the
      image paths built from those URLs. */
  lemma ImagesOfKnownUrls(folder: string, ps: seq<Post>)
    requires forall j :: 0 <= j < |ps| ==> ps[j].imageUrl.Some?
    ensures Files(ImageFile(folder), ps) == KnownImages(folder, ps)
  {
    forall f | f in Files(ImageFile(folder), ps) ensures f in KnownImages(folder, ps) {
      FileIsKnown(folder, ps, f);
    }
    forall f | f in KnownImages(folder, ps) ensures f in Files(ImageFile(folder), ps) {
      KnownIsFile(folder, ps, f);
    }
  }

  lemma FileIsKnown(folder: string, ps: seq<Post>, f: string)
    requires forall j :: 0 <= j < |ps| ==> ps[j].imageUrl.Some?
    requires f in Files(ImageFile(folder), ps)
    ensures f in KnownImages(folder, ps)
  {
    FilesMember(ImageFile(folder), ps, f);
    var j :| 0 <= j < |ps| && f == ImageFile(folder)(ps[j]);
    var p := ps[j];
    assert p in ps && p.imageUrl.Some?;
    assert f == ImagePath(folder, Stem(p.id, p.md5), Extension(p.imageUrl.value));
  }

  lemma KnownIsFile(folder: string, ps: seq<Post>, f: string)
    requires f in KnownImages(folder, ps)
    ensures f in Files(ImageFile(folder), ps)
  {
    var p :| p in ps && p.imageUrl.Some? && f == ImagePath(folder, Stem(p.id, p.md5), Extension(p.imageUrl.value));
    var j :| 0 <= j < |ps| && ps[j] == p;
    assert f == ImageFile(folder)(ps[j]);
    FilesMember(ImageFile(folder), ps, f);
  }

  // ---------------------------------------------------------------------------
  // Resuming a download.

  /** Whether a post is retried depends on the disk only through its own
      image path. */
  lemma ProcessSameOutcome(cfg: Config, folder: string, post: Post, net: Network,
                           d1: set<string>, d2: set<string>)
    requires ProcessPost(cfg, folder, post, net, d1).Some?
    requires var p := ProcessPost(cfg, folder, post, net, d1).value.imagePath; (p in d1 <==> p in d2)
    ensures ProcessPost(cfg, folder, post, net, d2) == ProcessPost(cfg, folder, post, net, d1)
  {
  }

  /** A step that looks at the disk only to skip a post whose image exists:
      whether it aborts, the post and the path do not depend on the disk; a
      post whose image exists is skipped; and two disks that agree on the
      path give the same result. */
  ghost predicate DiskLocal(step: Step) {
    && (forall p: Post, d1: set<string>, d2: set<string> ::
          step(p, d1).Some? ==>
            && step(p, d2).Some?
            && step(p, d2).value.post == step(p, d1).value.post
            && step(p, d2).value.imagePath == step(p, d1).value.imagePath
            && ((step(p, d1).value.imagePath in d1 <==> step(p, d1).value.imagePath in d2) ==>
                  step(p, d2) == step(p, d1)))
    && (forall p: Post, d: set<string> ::
          step(p, d).Some? && step(p, d).value.imagePath in d ==> step(p, d).value.outcome == Skipped)
  }

  /** The worker checks the disk only for the image it is about to fetch. */
  lemma WorkerDiskLocal(cfg: Config, folder: string, net: Network)
    ensures DiskLocal(Worker(cfg, folder, net))
  {
    var step := Worker(cfg, folder, net);
    forall p: Post, d1: set<string>, d2: set<string> | step(p, d1).Some?
      ensures && step(p, d2).Some?
              && step(p, d2).value.post == step(p, d1).value.post
              && step(p, d2).value.imagePath == step(p, d1).value.imagePath
              && ((step(p, d1).value.imagePath in d1 <==> step(p, d1).value.imagePath in d2) ==>
                    step(p, d2) == step(p, d1))
    {
      assert step(p, d1) == ProcessPost(cfg, folder, p, net, d1);
      assert step(p, d2) == ProcessPost(cfg, folder, p, net, d2);
      if step(p, d1).value.imagePath in d1 <==> step(p, d1).value.imagePath in d2 {
        ProcessSameOutcome(cfg, folder, p, net, d1, d2);
      }
    }
    forall p: Post, d: set<string> | step(p, d).Some? && step(p, d).value.imagePath in d
      ensures step(p, d).value.outcome == Skipped
    {
      assert step(p, d) == ProcessPost(cfg, folder, p, net, d);
    }
  }

  /** A second pass over the same queue, against the disk the first pass
      left, writes no image: nothing is downloaded again, the disk is
      unchanged, every post the first pass saved or skipped is skipped, and
      the same posts are aborted or left over. */
  lemma {:induction false} DrainIdempotent(step: Step, workers: nat, queue: seq<Post>, disk: set<string>)
    requires DiskLocal(step)
    ensures var r1 := Drain(step, workers, queue, disk);
      var r2 := Drain(step, workers, queue, r1.disk);
      && r2.tally.successful == []
      && r2.disk == r1.disk
      && multiset(r1.tally.successful) + multiset(r1.tally.skipped) <= multiset(r2.tally.skipped)
      && r2.aborted == r1.aborted && r2.unprocessed == r1.unprocessed
    decreases |queue|, 1
  {
    if |queue| == 0 || workers == 0 {
    } else if step(queue[0], disk).None? {
      DrainIdempotent(step, workers - 1, queue[1..], disk);
    } else {
      HandleIdempotent(step, workers, queue, disk);
    }
  }

  /** The step of DrainIdempotent where the first post is classified. */
  lemma {:induction false} HandleIdempotent(step: Step, workers: nat, queue: seq<Post>, disk: set<string>)
    requires |queue| > 0 && workers > 0 && step(queue[0], disk).Some?
    requires DiskLocal(step)
    ensures var r1 := Drain(step, workers, queue, disk);
      var r2 := Drain(step, workers, queue, r1.disk);
      && r2.tally.successful == []
      && r2.disk == r1.disk
      && multiset(r1.tally.successful) + multiset(r1.tally.skipped) <= multiset(r2.tally.skipped)
      && r2.aborted == r1.aborted && r2.unprocessed == r1.unprocessed
    decreases |queue|, 0
  {
    var final := Drain(step, workers, queue, disk).disk;
    var h1 := step(queue[0], disk).value;
    var disk' := if h1.outcome == Successful then disk + {h1.imagePath} else disk;
    var rest1 := Drain(step, workers, queue[1..], disk');
    var rest2 := Drain(step, workers, queue[1..], final);
    DrainIdempotent(step, workers, queue[1..], disk');
    DrainShape(step, workers, queue[1..], disk');
    var h2 := step(queue[0], final).value;
    assert h2.outcome != Successful;
    SecondPassTally(h1, h2, rest1.tally, rest2.tally);
  }

  /** One post of the two passes: the first pass recorded `h1`, the second
      `h2`, the same post, not downloaded again. */
  lemma SecondPassTally(h1: Handled, h2: Handled, t1: Tally, t2: Tally)
    requires h2.post == h1.post
    requires h2.outcome != Successful
    requires h1.outcome != Failed ==> h2.outcome == Skipped
    requires t2.successful == []
    requires multiset(t1.successful) + multiset(t1.skipped) <= multiset(t2.skipped)
    ensures Record(h2, t2).successful == []
    ensures multiset(Record(h1, t1).successful) + multiset(Record(h1, t1).skipped)
         <= multiset(Record(h2, t2).skipped)
  {
    var m := multiset{h1.post};
    assert multiset([h1.post] + t1.successful) == m + multiset(t1.successful);
    assert multiset([h1.post] + t1.skipped) == m + multiset(t1.skipped);
    assert multiset([h2.post] + t2.skipped) == m + multiset(t2.skipped);
  }

  /** Running the downloader twice into the same folder downloads nothing
      the second time. */
  lemma DownloadIdempotent(cfg: Config, folder: string, net: Network, queue: seq<Post>, disk: set<string>)
    ensures var r1 := DownloadQueue(cfg, folder, net, queue, disk).0;
      var r2 := DownloadQueue(cfg, folder, net, queue, r1.disk).0;
      && r2.tally.successful == []
      && r2.disk == r1.disk
      && multiset(r1.tally.successful) + multiset(r1.tally.skipped) <= multiset(r2.tally.skipped)
      && r2.aborted == r1.aborted && r2.unprocessed == r1.unprocessed
  {
    WorkerDiskLocal(cfg, folder, net);
    DrainIdempotent(Worker(cfg, folder, net), Sharding.THREAD_COUNT, queue, disk);
  }
}
