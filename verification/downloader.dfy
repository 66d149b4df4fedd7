/** The image downloader: target file names derived from URLs, response
    validation, the per-URL download rule, and the fold over a URL list that
    threads the output directory's contents (a store from paths to bytes)
    through one URL after another. */
module Downloader {
  import opened Wrappers
  import opened Text
  import Seqs
  import Paths

  type Byte = b: int | 0 <= b < 256
  type Bytes = seq<Byte>

  /** The output directory's files: full path to contents. */
  type Store = map<string, Bytes>

  predicate IsHexDigit(c: char) {
    '0' <= c <= '9' || 'a' <= c <= 'f'
  }

  /** What `hashlib.sha1(...).hexdigest()` returns: 40 lower-case hex digits. */
  predicate IsHexDigest(s: string) {
    |s| == 40 && forall i :: 0 <= i < |s| ==> IsHexDigit(s[i])
  }

  type HexDigest = s: string | IsHexDigest(s)
    witness "0000000000000000000000000000000000000000"

  /** SHA-1 of the URL's UTF-8 encoding, as a hex digest; not computed here. */
  type Hasher = string -> HexDigest

  // ---------------------------------------------------------------------
  // File names
  // ---------------------------------------------------------------------

  /** `url.split("?")[0]`: the URL up to its first '?'. */
  function BeforeQuery(url: string): (pre: string)
    ensures '?' !in pre
    ensures pre <= url
    ensures |pre| < |url| ==> url[|pre|] == '?'
  {
    SplitHead(url, '?');
    Split(url, '?')[0]
  }

  /** `pre.split(".")[-1]`: the text after the last '.' of `pre`, with its
      case kept; the whole of `pre` when it has no '.'. */
  function LastDotSuffix(pre: string): (ext: string)
    ensures '.' !in ext
    ensures EndsWith(pre, ext)
    ensures '.' !in pre ==> ext == pre
    ensures '.' in pre ==> |ext| < |pre| && pre[|pre| - |ext| - 1] == '.'
  {
    var parts := Split(pre, '.');
    SplitLast(pre, '.');
    parts[|parts| - 1]
  }

  /** `url.split("?")[0].split(".")[-1]`: the extension as the downloader
      cuts it. When the part before the query has no '.', it is that whole
      part, scheme, host and path included. */
  function Extension(url: string): (ext: string)
    ensures '?' !in ext && '.' !in ext
  {
    LastDotSuffix(BeforeQuery(url))
  }

  /** `calculate_file_name`: the hex digest of the whole URL, query included,
      then '.', then the extension. The name can be taken apart again: its
      first 40 characters are the digest, then comes the '.', and the rest
      is the extension. */
  function FileName(hash: Hasher, url: string): (name: string)
    ensures |name| == 41 + |Extension(url)|
    ensures name[..40] == hash(url) && name[40] == '.' && name[41..] == Extension(url)
  {
    hash(url) + "." + Extension(url)
  }

  /** Two URLs share a file name exactly when they share the digest and the
      extension: the name can be taken apart again. */
  lemma FileNameInjective(hash: Hasher, u1: string, u2: string)
    ensures FileName(hash, u1) == FileName(hash, u2)
        <==> hash(u1) == hash(u2) && Extension(u1) == Extension(u2)
  {
    var n1, n2 := FileName(hash, u1), FileName(hash, u2);
    if n1 == n2 {
      assert hash(u1) == n1[..40] == n2[..40] == hash(u2);
      assert Extension(u1) == n1[41..] == n2[41..] == Extension(u2);
    }
  }

  /** URLs that differ only after the '?' get the same extension, so their
      names differ exactly when their digests do. */
  lemma QueryOnlyChangesDigest(hash: Hasher, u1: string, u2: string)
    requires BeforeQuery(u1) == BeforeQuery(u2)
    ensures Extension(u1) == Extension(u2)
    ensures FileName(hash, u1) == FileName(hash, u2) <==> hash(u1) == hash(u2)
  {
    assert Extension(u1) == LastDotSuffix(BeforeQuery(u1));
    FileNameInjective(hash, u1, u2);
  }

  /** A file name never starts with '/', so joining it to the output
      directory never discards the directory. */
  lemma FileNameIsRelative(hash: Hasher, url: string)
    ensures !StartsWith(FileName(hash, url), "/")
  {
    var name := FileName(hash, url);
    assert name[0] == hash(url)[0];
    assert IsHexDigit(name[0]);
    assert name[..1][0] == name[0];
  }

  /** `os.path.join(output_dir, calculate_file_name(url))`: the output
      directory, a '/' when the directory is not empty and does not end in
      one, and the file name. (The name itself may hold '/', taken from the
      URL's path, and then points below the output directory.) */
  function TargetPath(hash: Hasher, dir: string, url: string): (path: string)
    ensures var name := FileName(hash, url);
      && StartsWith(path, dir) && EndsWith(path, name)
      && |path| == |dir| + |name| + (if dir == [] || EndsWith(dir, "/") then 0 else 1)
      && (dir != [] ==> path[|path| - |name| - 1] == '/')
  {
    FileNameIsRelative(hash, url);
    Paths.JoinPath(dir, FileName(hash, url))
  }

  /** In one output directory, two URLs share a target exactly when they
      share a file name. */
  lemma TargetPathInjective(hash: Hasher, dir: string, u1: string, u2: string)
    ensures TargetPath(hash, dir, u1) == TargetPath(hash, dir, u2) <==> FileName(hash, u1) == FileName(hash, u2)
  {
    if TargetPath(hash, dir, u1) == TargetPath(hash, dir, u2) {
      FileNameIsRelative(hash, u1);
      FileNameIsRelative(hash, u2);
      Paths.JoinPathInjective(dir, FileName(hash, u1), FileName(hash, u2));
    }
  }

  // ---------------------------------------------------------------------
  // Response validation
  // ---------------------------------------------------------------------

  /** Why a response was refused. */
  datatype Rejection = BadStatus(status: int) | BadContentType(contentType: string)

  /** `validate_http_status`: anything but 200 raises. None means "passes". */
  function ValidateHttpStatus(status: int): (r: Option<Rejection>)
    ensures r == None <==> status == 200
    ensures r.Some? ==> r.value == BadStatus(status)
  {
    if status != 200 then Some(BadStatus(status)) else None
  }

  /** `validate_content_type`: the header, `""` when missing, must start with
      `image/`; the comparison is case-sensitive. */
  function ValidateContentType(contentType: Option<string>): (r: Option<Rejection>)
    ensures r == None <==> contentType.Some? && StartsWith(contentType.value, "image/")
    ensures r.Some? ==> r.value == BadContentType(contentType.GetOr(""))
  {
    var ct := contentType.GetOr("");
    if !StartsWith(ct, "image/") then Some(BadContentType(ct)) else None
  }

  /** `validate_response`: the status first, then the content type. */
  function ValidateResponse(status: int, contentType: Option<string>): (r: Option<Rejection>)
    ensures r == None <==> status == 200 && contentType.Some? && StartsWith(contentType.value, "image/")
    ensures status != 200 ==> r == Some(BadStatus(status))
    ensures status == 200 ==> r == ValidateContentType(contentType)
  {
    var s := ValidateHttpStatus(status);
    if s.Some? then s else ValidateContentType(contentType)
  }

  // ---------------------------------------------------------------------
  // One URL
  // ---------------------------------------------------------------------

  /** What the GET (including reading the body) gives: a response, a client
      error (`aiohttp.ClientError`), or the 8-second timeout. */
  datatype FetchResult = Ok(status: int, contentType: Option<string>, body: Bytes) | NetErr | Timeout

  /** What writing the body to its path does: all of it lands; the file
      cannot be opened, so nothing is created; or the file is created and the
      write raises after `persisted` bytes. */
  datatype WriteResult = Written | OpenFailed | WriteFailed(persisted: nat)

  /** The outside world as seen by the downloader, for one run. */
  datatype Io = Io(fetch: string -> FetchResult, write: string -> WriteResult)

  /** Why one download failed; `download_image` turns each into `False`. */
  datatype Failure = NetworkError | TimedOut | Rejected(why: Rejection) | WriteError

  datatype Outcome = AlreadyPresent | Downloaded | Failed(reason: Failure)

  /** The boolean `download_image` returns. */
  predicate Succeeded(o: Outcome) {
    !o.Failed?
  }

  datatype Step = Step(outcome: Outcome, store: Store)

  /** Every file of `before` is still there, with the same contents. */
  predicate Extends(before: Store, after: Store) {
    before.Keys <= after.Keys && forall k :: k in before ==> after[k] == before[k]
  }

  /** The fetch gives a response that passes validation. */
  predicate Accepted(io: Io, url: string) {
    io.fetch(url).Ok? && ValidateResponse(io.fetch(url).status, io.fetch(url).contentType) == None
  }

  /** The target path of a URL: where a run puts its file and where it looks
      for one already there. */
  type Namer = string -> string

  /** The URL can be fetched, validated and written to `path` without error. */
  predicate DeliverableTo(io: Io, url: string, path: string) {
    Accepted(io, url) && io.write(path) == Written
  }

  /** The body of `download_image` once the target path is known. The
      existence check looks at `before`, the directory as the call found it;
      the write goes to `store`, the directory as it is when the body
      arrives. An existing target is reported as success without a fetch.
      Otherwise the response is validated before anything is written; every
      error is caught and becomes a failure. Only the target can change. */
  function DownloadTo(io: Io, before: Store, store: Store, url: string, path: string): (s: Step)
    ensures path in before ==> s == Step(AlreadyPresent, store)
    ensures s.outcome == AlreadyPresent <==> path in before
    ensures s.outcome == Downloaded ==> path in s.store
    ensures s.store.Keys == store.Keys || s.store.Keys == store.Keys + {path}
    ensures forall k :: k in store && k != path ==> s.store[k] == store[k]
  {
    if path in before then Step(AlreadyPresent, store)
    else
      match io.fetch(url)
      case NetErr => Step(Failed(NetworkError), store)
      case Timeout => Step(Failed(TimedOut), store)
      case Ok(status, contentType, body) =>
        match ValidateResponse(status, contentType)
        case Some(why) => Step(Failed(Rejected(why)), store)
        case None =>
          match io.write(path)
          case Written => Step(Downloaded, store[path := body])
          case OpenFailed => Step(Failed(WriteError), store)
          case WriteFailed(n) =>
            var kept := if n <= |body| then n else |body|;
            Step(Failed(WriteError), store[path := body[..kept]])
  }

  /** The per-URL rule in full. A target already present is reported as such
      and nothing changes; a download is reported only when the response was
      accepted and the write completed, and then the file holds the body; a
      rejected or failed fetch leaves the store as it was; each failure
      carries its cause; and a write replaces the target with a prefix of the
      body and changes nothing else. */
  lemma DownloadRule(io: Io, before: Store, store: Store, url: string, path: string)
    ensures var s := DownloadTo(io, before, store, url, path);
      && (s.outcome == AlreadyPresent <==> path in before)
      && (s.outcome == Downloaded <==> path !in before && DeliverableTo(io, url, path))
      && (s.outcome == Downloaded ==> s.store == store[path := io.fetch(url).body])
      && (!Accepted(io, url) ==> s.store == store)
      && (s.store != store ==>
            && path !in before && Accepted(io, url) && path in s.store
            && s.store[path] <= io.fetch(url).body && s.store == store[path := s.store[path]])
      && (path !in before && io.fetch(url).NetErr? ==> s.outcome == Failed(NetworkError))
      && (path !in before && io.fetch(url).Timeout? ==> s.outcome == Failed(TimedOut))
      && (path !in before && io.fetch(url).Ok? && !Accepted(io, url) ==>
            s.outcome == Failed(Rejected(ValidateResponse(io.fetch(url).status, io.fetch(url).contentType).value)))
      && (path !in before && Accepted(io, url) && io.write(path) != Written ==> s.outcome == Failed(WriteError))
  {
  }

  /** The outcome is decided by the existence check and the network alone:
      what other calls wrote in the meantime does not change it. */
  lemma OutcomeIgnoresWrites(io: Io, before: Store, s1: Store, s2: Store, url: string, path: string)
    ensures DownloadTo(io, before, s1, url, path).outcome == DownloadTo(io, before, s2, url, path).outcome
  {
  }

  /** An existing target is decided without the network: the step is the
      same whatever the fetch and the write would have done. */
  lemma ExistingTargetNeedsNoFetch(io1: Io, io2: Io, before: Store, store: Store, url: string, path: string)
    requires path in before
    ensures DownloadTo(io1, before, store, url, path) == DownloadTo(io2, before, store, url, path)
  {
  }

  /** A write that fails after creating the file leaves a truncated file
      behind, and every later call takes it for a finished download. */
  lemma InterruptedWriteIsNeverRepaired(io: Io, later: Io, store: Store, url: string, path: string)
    requires path !in store
    requires Accepted(io, url) && io.write(path).WriteFailed?
    ensures var s := DownloadTo(io, store, store, url, path);
      && s.outcome == Failed(WriteError)
      && path in s.store && s.store[path] <= io.fetch(url).body
      && DownloadTo(later, s.store, s.store, url, path) == Step(AlreadyPresent, s.store)
  {
  }

  /** `download_image` called on its own: the target is
      `os.path.join(output_dir, calculate_file_name(url))`, and a URL sharing
      its file name with a file already there is not fetched. */
  function DownloadImage(hash: Hasher, dir: string, io: Io, store: Store, url: string): (s: Step)
    ensures TargetPath(hash, dir, url) in store ==> s == Step(AlreadyPresent, store)
    ensures s.outcome == AlreadyPresent <==> TargetPath(hash, dir, url) in store
    ensures Extends(store, s.store)
  {
    DownloadTo(io, store, store, url, TargetPath(hash, dir, url))
  }

  // ---------------------------------------------------------------------
  // A list of URLs
  // ---------------------------------------------------------------------

  /** The outcome of every URL, in input order, and the final store. */
  datatype Batch = Batch(outcomes: seq<Outcome>, store: Store)

  /** `download_images` over `urls`, each URL going to the path `target`
      names. `gather` starts every call at once, and each call makes its
      existence check (lines 57-58) before it first waits, on the semaphore
      or the network; so every check sees `store`, the directory as the run
      found it, and a target shared by two URLs is fetched and written twice.
      The writes land here in input order, one of the orders the program
      allows; the outcomes do not depend on that order. */
  function DownloadAll(target: Namer, io: Io, store: Store, urls: seq<string>): (b: Batch)
    ensures |b.outcomes| == |urls|
    ensures Extends(store, b.store)
    decreases |urls|
  {
    if |urls| == 0 then Batch([], store)
    else
      var prev := DownloadAll(target, io, store, urls[..|urls| - 1]);
      var s := DownloadTo(io, store, prev.store, urls[|urls| - 1], target(urls[|urls| - 1]));
      Batch(prev.outcomes + [s.outcome], s.store)
  }

  /** The downloader's naming: a URL goes to its `TargetPath`. The ensures
      only names the lambda's value for the verifier; it is a proof aid. */
  function Targets(hash: Hasher, dir: string): (target: Namer)
    ensures forall url :: target(url) == TargetPath(hash, dir, url)
  {
    url => TargetPath(hash, dir, url)
  }

  /** The counter pair the downloader reports: successes and URLs. */
  datatype Summary = Summary(succeeded: nat, total: nat)

  /** `sum(results)` and `len(tasks)`. */
  function Summarize(outcomes: seq<Outcome>): (s: Summary)
    ensures s.total == |outcomes| && s.succeeded <= s.total
    ensures s.succeeded == s.total <==> forall i :: 0 <= i < |outcomes| ==> Succeeded(outcomes[i])
  {
    Summary(Seqs.Count(outcomes, Succeeded), |outcomes|)
  }

  /** No URLs, nothing downloaded: the summary is 0/0 and the store is unchanged. */
  lemma EmptyListSummary(target: Namer, io: Io, store: Store)
    ensures DownloadAll(target, io, store, []) == Batch([], store)
    ensures Summarize([]) == Summary(0, 0)
  {
  }

  /** The last step of the fold, unfolded. */
  lemma DownloadAllLast(target: Namer, io: Io, store: Store, urls: seq<string>)
    requires |urls| > 0
    ensures var prev := DownloadAll(target, io, store, urls[..|urls| - 1]);
      var s := DownloadTo(io, store, prev.store, urls[|urls| - 1], target(urls[|urls| - 1]));
      DownloadAll(target, io, store, urls) == Batch(prev.outcomes + [s.outcome], s.store)
  {
  }

  /** The loop step of `DownloadImages`: from the batch after `i` URLs to
      the batch after `i + 1`. */
  lemma DownloadStep(target: Namer, io: Io, store: Store, urls: seq<string>, i: nat, b: Batch)
    requires i < |urls| && b == DownloadAll(target, io, store, urls[..i])
    ensures var s := DownloadTo(io, store, b.store, urls[i], target(urls[i]));
      DownloadAll(target, io, store, urls[..i + 1]) == Batch(b.outcomes + [s.outcome], s.store)
  {
    assert urls[..i + 1][..i] == urls[..i];
    DownloadAllLast(target, io, store, urls[..i + 1]);
  }

  /** `download_images`: every URL, each checked against the directory as
      the run found it, then `sum(results)` over the outcomes and
      `len(tasks)`. Its result is the fold's. */
  method DownloadImages(hash: Hasher, dir: string, io: Io, store: Store, urls: seq<string>)
    returns (summary: Summary, result: Store)
    ensures var b := DownloadAll(Targets(hash, dir), io, store, urls);
      result == b.store && summary == Summarize(b.outcomes)
    ensures summary.total == |urls| && summary.succeeded <= summary.total
    ensures Extends(store, result)
  {
    var target := Targets(hash, dir);
    var outcomes: seq<Outcome> := [];
    result := store;
    var i := 0;
    while i < |urls|
      invariant 0 <= i <= |urls|
      invariant Batch(outcomes, result) == DownloadAll(target, io, store, urls[..i])
    {
      var s := DownloadTo(io, store, result, urls[i], target(urls[i]));
      DownloadStep(target, io, store, urls, i, Batch(outcomes, result));
      outcomes := outcomes + [s.outcome];
      result := s.store;
      i := i + 1;
    }
    assert urls[..i] == urls;
    summary := Summarize(outcomes);
  }

  // ---------------------------------------------------------------------
  // Outcomes, re-runs and isolation
  // ---------------------------------------------------------------------

  /** Every URL of `urls` has in `b` the outcome it would have on its own
      against `before`. */
  predicate OutcomesAlone(target: Namer, io: Io, urls: seq<string>, before: Store, b: Batch) {
    && |b.outcomes| == |urls|
    && forall i :: 0 <= i < |urls| ==>
         b.outcomes[i] == DownloadTo(io, before, before, urls[i], target(urls[i])).outcome
  }

  /** Each URL's outcome in a run is the outcome of that URL alone against
      the directory the run started from: the other URLs' downloads never
      change it. */
  lemma {:induction false} OutcomesAreIndependent(target: Namer, io: Io, store: Store, urls: seq<string>)
    ensures OutcomesAlone(target, io, urls, store, DownloadAll(target, io, store, urls))
    decreases |urls|
  {
    if |urls| > 0 {
      var n := |urls| - 1;
      var init := urls[..n];
      var prev := DownloadAll(target, io, store, init);
      var s := DownloadTo(io, store, prev.store, urls[n], target(urls[n]));
      var b := DownloadAll(target, io, store, urls);
      DownloadAllLast(target, io, store, urls);
      OutcomesAreIndependent(target, io, store, init);
      OutcomeIgnoresWrites(io, store, prev.store, store, urls[n], target(urls[n]));
      forall i | 0 <= i < |urls|
        ensures b.outcomes[i] == DownloadTo(io, store, store, urls[i], target(urls[i])).outcome
      {
        if i < n {
          assert b.outcomes[i] == prev.outcomes[i];
          assert urls[i] == init[i];
        } else {
          assert b.outcomes[i] == s.outcome;
        }
      }
    }
  }

  /** With the downloader's naming: the outcome of each URL in
      `download_images` is what `download_image` alone reports for it on the
      directory the run started from. */
  lemma RunOutcomesAreSingleCalls(hash: Hasher, dir: string, io: Io, store: Store, urls: seq<string>)
    ensures var b := DownloadAll(Targets(hash, dir), io, store, urls);
      forall i :: 0 <= i < |urls| ==> b.outcomes[i] == DownloadImage(hash, dir, io, store, urls[i]).outcome
  {
    var target := Targets(hash, dir);
    OutcomesAreIndependent(target, io, store, urls);
    forall i | 0 <= i < |urls|
      ensures target(urls[i]) == TargetPath(hash, dir, urls[i])
    {
    }
  }

  /** Every URL of `urls` reported as a success in `b` has its target in `b`'s store. */
  predicate SuccessesPresent(target: Namer, urls: seq<string>, b: Batch) {
    && |b.outcomes| == |urls|
    && forall i :: 0 <= i < |urls| && Succeeded(b.outcomes[i]) ==> target(urls[i]) in b.store
  }

  /** A URL of `urls` is reported present in `b` exactly when its target was in `before`. */
  predicate PresentReported(target: Namer, urls: seq<string>, before: Store, b: Batch) {
    && |b.outcomes| == |urls|
    && forall i :: 0 <= i < |urls| ==> (b.outcomes[i] == AlreadyPresent <==> target(urls[i]) in before)
  }

  /** Every URL reported as a success has its target in the final store. */
  lemma {:induction false} SucceededArePresent(target: Namer, io: Io, store: Store, urls: seq<string>)
    ensures SuccessesPresent(target, urls, DownloadAll(target, io, store, urls))
    decreases |urls|
  {
    if |urls| > 0 {
      var n := |urls| - 1;
      var init := urls[..n];
      var prev := DownloadAll(target, io, store, init);
      var s := DownloadTo(io, store, prev.store, urls[n], target(urls[n]));
      var b := DownloadAll(target, io, store, urls);
      DownloadAllLast(target, io, store, urls);
      SucceededArePresent(target, io, store, init);
      assert b.store == s.store && prev.store.Keys <= s.store.Keys;
      forall i | 0 <= i < |urls| && Succeeded(b.outcomes[i])
        ensures target(urls[i]) in b.store
      {
        if i < n {
          assert b.outcomes[i] == prev.outcomes[i];
          assert urls[i] == init[i];
          assert target(init[i]) in prev.store;
        } else {
          assert b.outcomes[i] == s.outcome;
          DownloadRule(io, store, prev.store, urls[n], target(urls[n]));
        }
      }
    }
  }

  /** A URL is reported present exactly when its target was in the store
      before the run: an earlier URL of the same run writing that target
      does not make it present. */
  lemma PresentAreSkipped(target: Namer, io: Io, store: Store, urls: seq<string>)
    ensures PresentReported(target, urls, store, DownloadAll(target, io, store, urls))
  {
    OutcomesAreIndependent(target, io, store, urls);
    forall i | 0 <= i < |urls|
      ensures DownloadTo(io, store, store, urls[i], target(urls[i])).outcome == AlreadyPresent <==> target(urls[i]) in store
    {
      DownloadRule(io, store, store, urls[i], target(urls[i]));
    }
  }

  /** When every target is present, a run changes nothing and reports every
      URL present. */
  lemma {:induction false} AllPresentIsNoOp(target: Namer, io: Io, store: Store, urls: seq<string>)
    requires forall i :: 0 <= i < |urls| ==> target(urls[i]) in store
    ensures DownloadAll(target, io, store, urls).store == store
    ensures PresentReported(target, urls, store, DownloadAll(target, io, store, urls))
    decreases |urls|
  {
    if |urls| > 0 {
      var n := |urls| - 1;
      var init := urls[..n];
      DownloadAllLast(target, io, store, urls);
      AllPresentIsNoOp(target, io, store, init);
      assert target(urls[n]) in store;
    }
    PresentAreSkipped(target, io, store, urls);
  }

  /** Two URLs of one run that share a target absent before the run: each
      is fetched, the later one too whatever happened to the earlier one,
      and each gets the outcome it would have on its own. */
  lemma SharedTargetFetchedAgain(target: Namer, io: Io, store: Store, urls: seq<string>, i: nat, j: nat)
    requires i < j < |urls| && target(urls[i]) == target(urls[j]) && target(urls[j]) !in store
    ensures var b := DownloadAll(target, io, store, urls);
      && b.outcomes[i] != AlreadyPresent && b.outcomes[j] != AlreadyPresent
      && b.outcomes[i] == DownloadTo(io, store, store, urls[i], target(urls[j])).outcome
      && b.outcomes[j] == DownloadTo(io, store, store, urls[j], target(urls[i])).outcome
  {
    PresentAreSkipped(target, io, store, urls);
    OutcomesAreIndependent(target, io, store, urls);
  }

  /** In this model two copies of one URL in a run always get the same
      outcome: both see the same starting directory, and `fetch` and
      `write` answer per URL and per path. */
  lemma DuplicateUrlsAgree(target: Namer, io: Io, store: Store, urls: seq<string>, i: nat, j: nat)
    requires i < |urls| && j < |urls| && urls[i] == urls[j]
    ensures DownloadAll(target, io, store, urls).outcomes[i] == DownloadAll(target, io, store, urls).outcomes[j]
  {
    OutcomesAreIndependent(target, io, store, urls);
  }

  /** The same URL twice, with a write that fails before any byte lands:
      both calls fail, so the run reports 0 of 2, and an empty file is left. */
  lemma InterruptedDuplicateFailsTwice(target: Namer, io: Io, store: Store, url: string)
    requires target(url) !in store
    requires Accepted(io, url) && io.write(target(url)) == WriteFailed(0)
    ensures var b := DownloadAll(target, io, store, [url, url]);
      && b.outcomes == [Failed(WriteError), Failed(WriteError)]
      && Summarize(b.outcomes) == Summary(0, 2)
      && b.store == store[target(url) := []]
  {
    var urls := [url, url];
    OutcomesAreIndependent(target, io, store, urls);
    DownloadRule(io, store, store, url, target(url));
    DownloadAllLast(target, io, store, urls);
    assert urls[..1] == [url];
    DownloadAllLast(target, io, store, [url]);
    assert [url][..0] == [];
    var b := DownloadAll(target, io, store, urls);
    assert Seqs.Count(b.outcomes, Succeeded) == 0;
  }

  /** Last writer wins: a deliverable URL whose target no later URL shares
      leaves its body at the target, whatever the earlier URLs wrote there. */
  lemma {:induction false} LastWriterWins(target: Namer, io: Io, store: Store, urls: seq<string>, j: nat)
    requires j < |urls| && target(urls[j]) !in store && DeliverableTo(io, urls[j], target(urls[j]))
    requires forall k :: j < k < |urls| ==> target(urls[k]) != target(urls[j])
    ensures var b := DownloadAll(target, io, store, urls);
      target(urls[j]) in b.store && b.store[target(urls[j])] == io.fetch(urls[j]).body
    decreases |urls|
  {
    var n := |urls| - 1;
    var init := urls[..n];
    var p := target(urls[j]);
    var body := io.fetch(urls[j]).body;
    var prev := DownloadAll(target, io, store, init);
    var s := DownloadTo(io, store, prev.store, urls[n], target(urls[n]));
    DownloadAllLast(target, io, store, urls);
    assert DownloadAll(target, io, store, urls).store == s.store;
    if j == n {
      DownloadRule(io, store, prev.store, urls[n], p);
      assert s.store == prev.store[p := body];
    } else {
      assert init[j] == urls[j];
      forall k | j < k < |init| ensures target(init[k]) != p {
        assert init[k] == urls[k];
      }
      LastWriterWins(target, io, store, init, j);
      assert p in prev.store && prev.store[p] == body;
      assert target(urls[n]) != p;
      assert s.store[p] == prev.store[p];
    }
  }

  /** Running again over the same URLs, whatever the network does the second
      time: every URL that succeeded the first time is found present without
      a fetch, no file of the first run changes, and the success count does
      not drop. */
  lemma SecondRunKeepsFirst(target: Namer, io1: Io, io2: Io, store: Store, urls: seq<string>)
    ensures var first := DownloadAll(target, io1, store, urls);
      var second := DownloadAll(target, io2, first.store, urls);
      && (forall i :: 0 <= i < |urls| && Succeeded(first.outcomes[i]) ==> second.outcomes[i] == AlreadyPresent)
      && Extends(first.store, second.store)
      && Summarize(first.outcomes).succeeded <= Summarize(second.outcomes).succeeded
  {
    var first := DownloadAll(target, io1, store, urls);
    var second := DownloadAll(target, io2, first.store, urls);
    SucceededArePresent(target, io1, store, urls);
    PresentAreSkipped(target, io2, first.store, urls);
    Seqs.CountMonotone(first.outcomes, Succeeded, second.outcomes, Succeeded);
  }

  /** After a run in which every URL succeeded, running again is a no-op:
      nothing is fetched or written and every URL is reported present. */
  lemma RerunAfterFullSuccess(target: Namer, io1: Io, io2: Io, store: Store, urls: seq<string>)
    requires Summarize(DownloadAll(target, io1, store, urls).outcomes).succeeded == |urls|
    ensures var first := DownloadAll(target, io1, store, urls);
      var second := DownloadAll(target, io2, first.store, urls);
      && second.store == first.store
      && (forall i :: 0 <= i < |urls| ==> second.outcomes[i] == AlreadyPresent)
      && Summarize(second.outcomes) == Summary(|urls|, |urls|)
  {
    var first := DownloadAll(target, io1, store, urls);
    SucceededArePresent(target, io1, store, urls);
    AllPresentIsNoOp(target, io2, first.store, urls);
  }

  /** Every URL of `urls` that `io` would deliver to its target is reported a success in `b`. */
  predicate DeliverablesSucceed(target: Namer, io: Io, urls: seq<string>, b: Batch) {
    && |b.outcomes| == |urls|
    && forall i :: 0 <= i < |urls| && DeliverableTo(io, urls[i], target(urls[i])) ==> Succeeded(b.outcomes[i])
  }

  /** Failures stay with their own URL: a deliverable URL succeeds whatever
      the other URLs do. */
  lemma DeliverableUrlsSucceed(target: Namer, io: Io, store: Store, urls: seq<string>)
    ensures DeliverablesSucceed(target, io, urls, DownloadAll(target, io, store, urls))
  {
    OutcomesAreIndependent(target, io, store, urls);
    forall i | 0 <= i < |urls| && DeliverableTo(io, urls[i], target(urls[i]))
      ensures Succeeded(DownloadTo(io, store, store, urls[i], target(urls[i])).outcome)
    {
      DownloadRule(io, store, store, urls[i], target(urls[i]));
    }
  }

  // ---------------------------------------------------------------------
  // Input file
  // ---------------------------------------------------------------------

  /** How reading the URL file fails: no header row (the first `next` has
      nothing to return), or a row with no first field (an empty line). The
      row number counts the header as row 0. */
  datatype ReadError = MissingHeader | EmptyRow(row: nat)

  /** The first field of each row, the first row being numbered `offset`. */
  function FirstFields(rows: seq<seq<string>>, offset: nat): (r: Result<seq<string>, ReadError>)
    ensures r.Success? <==> forall i :: 0 <= i < |rows| ==> |rows[i]| > 0
    ensures r.Success? ==> |r.value| == |rows| && forall i :: 0 <= i < |rows| ==> r.value[i] == rows[i][0]
    ensures r.Failure? ==>
      && r.error.EmptyRow?
      && offset <= r.error.row < offset + |rows|
      && rows[r.error.row - offset] == []
      && forall i :: 0 <= i < r.error.row - offset ==> |rows[i]| > 0
    decreases |rows|
  {
    if |rows| == 0 then Success([])
    else if rows[0] == [] then Failure(EmptyRow(offset))
    else
      match FirstFields(rows[1..], offset + 1)
      case Success(rest) => Success([rows[0][0]] + rest)
      case Failure(e) => Failure(e)
  }

  /** `read_input_urls`: skip the header row, then the first field of every
      other row, in order. */
  function ReadInputUrls(rows: seq<seq<string>>): (r: Result<seq<string>, ReadError>)
    ensures r == Failure(MissingHeader) <==> |rows| == 0
    ensures r.Success? <==> |rows| >= 1 && forall i :: 1 <= i < |rows| ==> |rows[i]| > 0
    ensures r.Success? ==> |r.value| == |rows| - 1 && forall i :: 0 <= i < |r.value| ==> r.value[i] == rows[i + 1][0]
    ensures r.Failure? && r.error.EmptyRow? ==>
      && 1 <= r.error.row < |rows|
      && rows[r.error.row] == []
      && forall i :: 1 <= i < r.error.row ==> |rows[i]| > 0
  {
    if |rows| == 0 then Failure(MissingHeader) else FirstFields(rows[1..], 1)
  }

  /** `main`: read the URLs, then download them all. A read error is raised
      while the list of `download_image` calls is being built, before any download starts. */
  function DownloadFromRows(hash: Hasher, dir: string, io: Io, store: Store, rows: seq<seq<string>>)
    : (r: Result<(Summary, Store), ReadError>)
    ensures r.Failure? <==> ReadInputUrls(rows).Failure?
    ensures r.Success? ==> r.value.0.total == |rows| - 1 && r.value.0.succeeded <= r.value.0.total
    ensures r.Success? ==> Extends(store, r.value.1)
  {
    match ReadInputUrls(rows)
    case Failure(e) => Failure(e)
    case Success(urls) =>
      var b := DownloadAll(Targets(hash, dir), io, store, urls);
      Success((Summarize(b.outcomes), b.store))
  }
}
