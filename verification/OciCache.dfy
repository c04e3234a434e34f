/**
 The two-layer cache of OCI artifacts, tag to digest to content, and the resolution of one
 reference through it (runtime/oci/cache.go and resolveRef in runtime/oci/resolver.go).
 */
module OciCache {
  import opened Wrappers

  /** The extracted files of an artifact: file name to source text. */
  type Files = map<string, string>

  datatype PullPolicy = IfNotPresent | Always

  datatype TagEntry = TagEntry(digest: string, expires: int)

  /** The value of a cache: its two maps and its settings. Times and the TTL share one unit. */
  datatype CacheState = CacheState(
    tags: map<string, TagEntry>, contents: map<string, Files>, policy: PullPolicy, ttl: int)

  /** The answer of a tag lookup; a stale answer may serve as a fallback. */
  datatype Lookup = Miss | Stale(files: Files) | Fresh(files: Files)

  /** A pulled image: its digest and its extracted files, either of which may fail. */
  datatype Image = Image(digest: Option<string>, files: Option<Files>)

  /** What the world answers during one resolution: the clock when the cache is read and when it
      is written, whether the reference parses, the HEAD request and the pull. */
  datatype Answers = Answers(
    readAt: int, writeAt: int, parses: bool, head: Option<string>, fetch: Option<Image>)

  datatype FetchError = Unparsable | FetchFailed | ExtractFailed | DigestFailed

  function GetByTag(s: CacheState, ref: string, now: int): Lookup {
    if ref !in s.tags then Miss
    else if s.tags[ref].digest !in s.contents then Miss
    else
      var files := s.contents[s.tags[ref].digest];
      if s.policy == IfNotPresent then Fresh(files)
      else if s.ttl > 0 && now > s.tags[ref].expires then Stale(files)
      else Fresh(files)
  }

  function GetByDigest(s: CacheState, digest: string): Option<Files> {
    if digest in s.contents then Some(s.contents[digest]) else None
  }

  function PutTag(s: CacheState, ref: string, digest: string, now: int): CacheState {
    s.(tags := s.tags[ref := TagEntry(digest, now + s.ttl)])
  }

  function PutContent(s: CacheState, digest: string, files: Files): CacheState {
    if digest in s.contents then s else s.(contents := s.contents[digest := files])
  }

  /** The outcome of resolving one reference: the cache afterwards and the answer. */
  datatype Resolved = Resolved(cache: CacheState, answer: Result<Files, FetchError>)

  function ResolveRef(s: CacheState, ref: string, digest: string, w: Answers): Resolved {
    var found := GetByTag(s, ref, w.readAt);
    if found.Fresh? then Resolved(s, Ok(found.files))
    else if digest != "" && GetByDigest(s, digest).Some? then
      Resolved(s, Ok(GetByDigest(s, digest).value))
    else if !w.parses then Resolved(s, Err(Unparsable))
    else if found.Stale? && w.head.Some? && GetByDigest(s, w.head.value).Some? then
      Resolved(PutTag(s, ref, w.head.value, w.writeAt), Ok(GetByDigest(s, w.head.value).value))
    else Pull(s, ref, found, w)
  }

  function Pull(s: CacheState, ref: string, found: Lookup, w: Answers): Resolved {
    match w.fetch
    case None =>
      if found.Stale? then Resolved(s, Ok(found.files)) else Resolved(s, Err(FetchFailed))
    case Some(image) =>
      if image.files.None? then Resolved(s, Err(ExtractFailed))
      else if image.digest.None? then Resolved(s, Err(DigestFailed))
      else
        var stored := PutContent(s, image.digest.value, image.files.value);
        Resolved(PutTag(stored, ref, image.digest.value, w.writeAt), Ok(image.files.value))
  }

  // ---------------------------------------------------------------- what a resolution does

  /** The content that the cache holds for a tag. */
  ghost predicate Holds(s: CacheState, ref: string, files: Files) {
    ref in s.tags && s.tags[ref].digest in s.contents && s.contents[s.tags[ref].digest] == files
  }

  /** Content held for a tag may be answered without asking: the policy says so, there is no TTL, or it
      has not run out. */
  predicate MayAnswer(s: CacheState, ref: string, now: int) {
    s.policy == IfNotPresent || s.ttl <= 0 || (ref in s.tags && now <= s.tags[ref].expires)
  }

  /** A tag that is held and may be answered is answered from the cache, whatever the world says. */
  lemma FreshIsAnswered(s: CacheState, ref: string, digest: string, w: Answers, files: Files)
    requires Holds(s, ref, files) && MayAnswer(s, ref, w.readAt)
    ensures ResolveRef(s, ref, digest, w) == Resolved(s, Ok(files))
  {
  }

  /** Otherwise a pinned digest with content is answered from the cache. */
  lemma PinnedIsAnswered(s: CacheState, ref: string, digest: string, w: Answers)
    requires (forall files :: !Holds(s, ref, files)) || !MayAnswer(s, ref, w.readAt)
    requires digest != "" && digest in s.contents
    ensures ResolveRef(s, ref, digest, w) == Resolved(s, Ok(s.contents[digest]))
  {
    HeldIsFound(s, ref, w.readAt);
  }

  /** The registry has to be asked: nothing held may be answered and no pinned content is there. */
  ghost predicate MustAsk(s: CacheState, ref: string, digest: string, w: Answers) {
    && ((forall files :: !Holds(s, ref, files)) || !MayAnswer(s, ref, w.readAt))
    && (digest == "" || digest !in s.contents)
  }

  /** Then a stale tag whose HEAD names content that is there gets that content, and the tag is renewed. */
  lemma StaleIsRenewed(s: CacheState, ref: string, digest: string, w: Answers, stale: Files)
    requires MustAsk(s, ref, digest, w) && w.parses && Holds(s, ref, stale)
    requires w.head.Some? && w.head.value in s.contents
    ensures var Resolved(t, answer) := ResolveRef(s, ref, digest, w);
            && answer == Ok(s.contents[w.head.value])
            && t == s.(tags := s.tags[ref := TagEntry(w.head.value, w.writeAt + s.ttl)])
  {
    assert Holds(s, ref, s.contents[s.tags[ref].digest]);
  }

  /** The image must be pulled: HEAD does not help. */
  ghost predicate MustPull(s: CacheState, ref: string, digest: string, w: Answers) {
    && MustAsk(s, ref, digest, w) && w.parses
    && ((forall files :: !Holds(s, ref, files)) || w.head.None? || w.head.value !in s.contents)
  }

  /** An image that is pulled with files and a digest is the answer; the tag points at that digest, whose
      content is stored unless there is some already. */
  lemma PulledIsStored(s: CacheState, ref: string, digest: string, w: Answers, d: string, files: Files)
    requires MustPull(s, ref, digest, w) && w.fetch == Some(Image(Some(d), Some(files)))
    ensures var Resolved(t, answer) := ResolveRef(s, ref, digest, w);
            && answer == Ok(files)
            && t.tags == s.tags[ref := TagEntry(d, w.writeAt + s.ttl)]
            && t.contents == (if d in s.contents then s.contents else s.contents[d := files])
            && t.policy == s.policy && t.ttl == s.ttl
  {
    HeldIsFound(s, ref, w.readAt);
  }

  /** A failed pull changes nothing. Stale content is answered only then, and only if the pull itself
      failed; everything else is an error that says what failed. */
  lemma FailedPullFallsBack(s: CacheState, ref: string, digest: string, w: Answers)
    requires MustPull(s, ref, digest, w)
    requires match w.fetch case None => true case Some(image) => image.files.None? || image.digest.None?
    ensures var Resolved(t, answer) := ResolveRef(s, ref, digest, w);
            && t == s
            && match w.fetch
               case None => (forall stale :: Holds(s, ref, stale) ==> answer == Ok(stale))
                            && ((forall stale :: !Holds(s, ref, stale)) ==> answer == Err(FetchFailed))
               case Some(image) => answer == Err(if image.files.None? then ExtractFailed else DigestFailed)
  {
    HeldIsFound(s, ref, w.readAt);
  }

  lemma UnparsableIsRefused(s: CacheState, ref: string, digest: string, w: Answers)
    requires MustAsk(s, ref, digest, w) && !w.parses
    ensures ResolveRef(s, ref, digest, w) == Resolved(s, Err(Unparsable))
  {
    HeldIsFound(s, ref, w.readAt);
  }

  lemma HeldIsFound(s: CacheState, ref: string, now: int)
    ensures (forall files :: !Holds(s, ref, files)) <==> GetByTag(s, ref, now) == Miss
    ensures forall files :: Holds(s, ref, files) ==> GetByTag(s, ref, now) in {Stale(files), Fresh(files)}
  {
    if ref in s.tags && s.tags[ref].digest in s.contents {
      assert Holds(s, ref, s.contents[s.tags[ref].digest]);
    }
  }

  /** The cache object; its methods are the locked operations. */
  class Cache {
    var tags: map<string, TagEntry>
    var contents: map<string, Files>
    const policy: PullPolicy
    const ttl: int

    constructor (policy: PullPolicy, ttl: int)
      ensures State() == CacheState(map[], map[], policy, ttl)
    {
      tags, contents := map[], map[];
      this.policy := policy;
      this.ttl := ttl;
    }

    function State(): CacheState
      reads this
    {
      CacheState(tags, contents, policy, ttl)
    }

    method Lookup(ref: string, now: int) returns (files: Option<Files>, isFresh: bool)
      ensures match GetByTag(State(), ref, now)
              case Miss => files == None && !isFresh
              case Stale(f) => files == Some(f) && !isFresh
              case Fresh(f) => files == Some(f) && isFresh
    {
      if ref !in tags {
        return None, false;
      }
      var entry := tags[ref];
      if entry.digest !in contents {
        return None, false;
      }
      files := Some(contents[entry.digest]);
      if policy == IfNotPresent {
        return files, true;
      }
      if ttl > 0 && now > entry.expires {
        return files, false;
      }
      isFresh := true;
    }

    method StoreTag(ref: string, digest: string, now: int)
      modifies this`tags
      ensures State() == PutTag(old(State()), ref, digest, now)
    {
      tags := tags[ref := TagEntry(digest, now + ttl)];
    }

    method StoreContent(digest: string, files: Files)
      modifies this`contents
      ensures State() == PutContent(old(State()), digest, files)
    {
      if digest in contents {
        return;
      }
      contents := contents[digest := files];
    }

    /** Cache first, then HEAD for stale content, then a pull, with the stale content as the last
        resort. */
    method Resolve(ref: string, digest: string, w: Answers) returns (answer: Result<Files, FetchError>)
      modifies this`tags, this`contents
      ensures ResolveRef(old(State()), ref, digest, w) == Resolved(State(), answer)
    {
      var files, isFresh := Lookup(ref, w.readAt);
      if isFresh {
        return Ok(files.value);
      }
      if digest != "" && digest in contents {
        return Ok(contents[digest]);
      }
      if !w.parses {
        return Err(Unparsable);
      }
      if files.Some? && w.head.Some? && w.head.value in contents {
        answer := Ok(contents[w.head.value]);
        StoreTag(ref, w.head.value, w.writeAt);
        return;
      }
      if w.fetch.None? {
        return if files.Some? then Ok(files.value) else Err(FetchFailed);
      }
      var image := w.fetch.value;
      if image.files.None? {
        return Err(ExtractFailed);
      }
      if image.digest.None? {
        return Err(DigestFailed);
      }
      StoreContent(image.digest.value, image.files.value);
      StoreTag(ref, image.digest.value, w.writeAt);
      answer := Ok(image.files.value);
    }
  }

  // ---------------------------------------------------------------- every sequence of calls

  /** One resolution: the reference, the pinned digest or "", and the world's answers. */
  datatype Call = Call(ref: string, digest: string, answers: Answers)

  function Step(s: CacheState, c: Call): Resolved {
    ResolveRef(s, c.ref, c.digest, c.answers)
  }

  /** The cache after a sequence of resolutions. */
  function Run(s: CacheState, calls: seq<Call>): CacheState {
    if calls == [] then s
    else Step(Run(s, calls[..|calls| - 1]), calls[|calls| - 1]).cache
  }

  /** Every tag's digest has content. */
  ghost predicate Consistent(s: CacheState) {
    forall ref :: ref in s.tags ==> s.tags[ref].digest in s.contents
  }

  /** The contents of `s` are still there, unchanged, in `t`. */
  ghost predicate WriteOnce(s: CacheState, t: CacheState) {
    forall d :: d in s.contents ==> d in t.contents && t.contents[d] == s.contents[d]
  }

  lemma StepKeepsContent(s: CacheState, c: Call)
    requires Consistent(s)
    ensures var t := Step(s, c).cache; Consistent(t) && WriteOnce(s, t) && t.policy == s.policy && t.ttl == s.ttl
  {
  }

  /** Content is written once per digest, the settings never change, and every tag keeps content:
      over every sequence of calls the branch for a tag without content is dead. */
  lemma {:induction false} RunKeepsContent(s: CacheState, calls: seq<Call>)
    requires Consistent(s)
    ensures var t := Run(s, calls);
            && Consistent(t) && WriteOnce(s, t) && t.policy == s.policy && t.ttl == s.ttl
            && forall ref, now :: GetByTag(t, ref, now) == Miss <==> ref !in t.tags
  {
    if calls != [] {
      var before := calls[..|calls| - 1];
      RunKeepsContent(s, before);
      StepKeepsContent(Run(s, before), calls[|calls| - 1]);
    }
  }

  /** Under IfNotPresent a cached reference always gets the answer it has now, whatever is resolved
      in between, whatever the registry says, and without asking it. */
  lemma {:induction false} PresentIsForever(s: CacheState, calls: seq<Call>, ref: string, digest: string, w: Answers)
    requires Consistent(s) && s.policy == IfNotPresent && ref in s.tags
    ensures var t := Run(s, calls);
            && ref in t.tags && t.tags[ref] == s.tags[ref]
            && ResolveRef(t, ref, digest, w) == Resolved(t, Ok(s.contents[s.tags[ref].digest]))
  {
    RunKeepsContent(s, calls);
    if calls != [] {
      var before := calls[..|calls| - 1];
      PresentIsForever(s, before, ref, digest, w);
      var c := calls[|calls| - 1];
      PresentIsForever(s, before, ref, c.digest, c.answers);
    }
  }

  /** The registry is content-addressed: an image's digest determines its files. */
  ghost predicate ContentAddressed(calls: seq<Call>, content: string -> Files) {
    forall i :: 0 <= i < |calls| ==> HonestPull(calls[i], content)
  }

  ghost predicate HonestPull(c: Call, content: string -> Files) {
    match c.answers.fetch
    case Some(Image(Some(d), Some(f))) => f == content(d)
    case _ => true
  }

  /** Call `i` recorded the tag `ref` with the given expiry and answered `files`. */
  ghost predicate RecordedBy(s: CacheState, calls: seq<Call>, i: nat, ref: string, files: Files, expires: int)
    requires i < |calls|
  {
    && calls[i].ref == ref
    && calls[i].answers.writeAt + s.ttl == expires
    && Step(Run(s, calls[..i]), calls[i]).answer == Ok(files)
  }

  ghost predicate Addressed(s: CacheState, content: string -> Files) {
    forall d :: d in s.contents ==> s.contents[d] == content(d)
  }

  /** One call leaves a tag's entry alone, or is a call for that tag that writes the entry and
      answers with its content. */
  lemma StepTags(s: CacheState, c: Call, content: string -> Files, ref: string)
    requires Consistent(s) && Addressed(s, content) && HonestPull(c, content)
    ensures Addressed(Step(s, c).cache, content)
    ensures var Resolved(t, answer) := Step(s, c);
            ref in t.tags ==>
              || (ref in s.tags && t.tags[ref] == s.tags[ref])
              || (&& c.ref == ref && t.tags[ref].expires == c.answers.writeAt + s.ttl
                  && t.tags[ref].digest in t.contents && answer == Ok(t.contents[t.tags[ref].digest]))
  {
  }

  /** In every run from the empty cache, a tag's entry was written by some call for that tag, and
      its content is what that call answered. */
  lemma {:induction false} TagsAreRecorded(s: CacheState, calls: seq<Call>, content: string -> Files, ref: string)
    requires s.tags == map[] && s.contents == map[] && ContentAddressed(calls, content)
    requires ref in Run(s, calls).tags
    ensures var t := Run(s, calls);
            && Consistent(t) && Addressed(t, content)
            && exists i :: 0 <= i < |calls|
                           && RecordedBy(s, calls, i, ref, t.contents[t.tags[ref].digest], t.tags[ref].expires)
  {
    var n := |calls| - 1;
    var before, c := calls[..n], calls[n];
    var t, t' := Run(s, before), Run(s, calls);
    RunKeepsContent(s, before);
    StepKeepsContent(t, c);
    AddressedRun(s, before, content);
    StepTags(t, c, content, ref);
    if ref in t.tags && t'.tags[ref] == t.tags[ref] {
      TagsAreRecorded(s, before, content, ref);
      var i :| 0 <= i < |before| && RecordedBy(s, before, i, ref, t.contents[t.tags[ref].digest], t.tags[ref].expires);
      assert before[..i] == calls[..i];
      assert RecordedBy(s, calls, i, ref, t'.contents[t'.tags[ref].digest], t'.tags[ref].expires);
    } else {
      assert RecordedBy(s, calls, n, ref, t'.contents[t'.tags[ref].digest], t'.tags[ref].expires);
    }
  }

  lemma {:induction false} AddressedRun(s: CacheState, calls: seq<Call>, content: string -> Files)
    requires s.tags == map[] && s.contents == map[] && ContentAddressed(calls, content)
    ensures Addressed(Run(s, calls), content)
  {
    if calls != [] {
      var before := calls[..|calls| - 1];
      AddressedRun(s, before, content);
      RunKeepsContent(s, before);
      StepTags(Run(s, before), calls[|calls| - 1], content, "");
    }
  }

  /** Under Always with a positive TTL, a fresh answer is one that a call for the same tag gave, and
      recorded, at most one TTL ago. */
  lemma FreshWithinTtl(s: CacheState, calls: seq<Call>, content: string -> Files, ref: string, now: int, files: Files)
    requires s.tags == map[] && s.contents == map[] && s.policy == Always && s.ttl > 0
    requires ContentAddressed(calls, content)
    requires GetByTag(Run(s, calls), ref, now) == Fresh(files)
    ensures exists i :: 0 <= i < |calls| && calls[i].ref == ref
                        && now - calls[i].answers.writeAt <= s.ttl
                        && Step(Run(s, calls[..i]), calls[i]).answer == Ok(files)
  {
    RunKeepsContent(s, calls);
    TagsAreRecorded(s, calls, content, ref);
    var t := Run(s, calls);
    var i :| 0 <= i < |calls|
             && RecordedBy(s, calls, i, ref, t.contents[t.tags[ref].digest], t.tags[ref].expires);
  }

  /** Where the answer to a call comes from. */
  datatype Origin =
    | Recent(i: nat)   // a call for the same tag recorded it within the TTL
    | Pinned           // it is the content of the pinned digest
    | Head             // HEAD named its digest in this call
    | Pulled           // it was pulled in this call
    | Fallback         // the pull failed in this call and the stale content is all there is

  ghost predicate ComesFrom(s: CacheState, calls: seq<Call>, c: Call, files: Files, o: Origin) {
    var t := Run(s, calls);
    match o
    case Recent(i) =>
      && i < |calls| && calls[i].ref == c.ref && c.answers.readAt - calls[i].answers.writeAt <= s.ttl
      && Step(Run(s, calls[..i]), calls[i]).answer == Ok(files)
    case Pinned => c.digest != "" && c.digest in t.contents && t.contents[c.digest] == files
    case Head => c.answers.head.Some? && c.answers.head.value in t.contents && t.contents[c.answers.head.value] == files
    case Pulled => c.answers.fetch.Some? && c.answers.fetch.value.files == Some(files)
    case Fallback => c.answers.fetch.None? && Holds(t, c.ref, files)
  }

  /** Under Always with a positive TTL, over every sequence of calls from the empty cache, an answer that
      is not pinned was recorded within the TTL, or the registry was asked in this very call: it named the
      content or gave it, or the pull failed. Stale content is served in no other case. */
  lemma AnswersAreCurrent(s: CacheState, calls: seq<Call>, content: string -> Files, c: Call, files: Files)
    requires s.tags == map[] && s.contents == map[] && s.policy == Always && s.ttl > 0
    requires ContentAddressed(calls, content) && Step(Run(s, calls), c).answer == Ok(files)
    ensures exists o :: ComesFrom(s, calls, c, files, o)
  {
    hide ContentAddressed;
    var t, w := Run(s, calls), c.answers;
    RunKeepsContent(s, calls);
    HeldIsFound(t, c.ref, w.readAt);
    var found := GetByTag(t, c.ref, w.readAt);
    if found.Fresh? {
      FreshWithinTtl(s, calls, content, c.ref, w.readAt, files);
      var i :| 0 <= i < |calls| && calls[i].ref == c.ref && w.readAt - calls[i].answers.writeAt <= s.ttl
               && Step(Run(s, calls[..i]), calls[i]).answer == Ok(files);
      assert ComesFrom(s, calls, c, files, Recent(i));
    } else if c.digest != "" && c.digest in t.contents {
      assert ComesFrom(s, calls, c, files, Pinned);
    } else if found.Stale? && w.head.Some? && w.head.value in t.contents {
      assert ComesFrom(s, calls, c, files, Head);
    } else if w.fetch.Some? {
      assert ComesFrom(s, calls, c, files, Pulled);
    } else {
      assert ComesFrom(s, calls, c, files, Fallback);
    }
  }

  /** A call for another tag leaves the entry of this one alone. */
  lemma StepLeavesTag(s: CacheState, c: Call, ref: string)
    requires ref in s.tags && c.ref != ref
    ensures ref in Step(s, c).cache.tags && Step(s, c).cache.tags[ref] == s.tags[ref]
  {
  }

  /** With a TTL of zero or less, Always behaves like IfNotPresent: a cached tag is never
      revalidated again. */
  lemma {:induction false} ZeroTtlNeverRevalidates(s: CacheState, calls: seq<Call>, ref: string, digest: string, w: Answers)
    requires Consistent(s) && s.policy == Always && s.ttl <= 0 && ref in s.tags
    ensures var t := Run(s, calls);
            && ref in t.tags && t.tags[ref] == s.tags[ref]
            && ResolveRef(t, ref, digest, w) == Resolved(t, Ok(s.contents[s.tags[ref].digest]))
  {
    RunKeepsContent(s, calls);
    if calls != [] {
      var before, c := calls[..|calls| - 1], calls[|calls| - 1];
      ZeroTtlNeverRevalidates(s, before, ref, digest, w);
      ZeroTtlNeverRevalidates(s, before, ref, c.digest, c.answers);
      if c.ref != ref {
        StepLeavesTag(Run(s, before), c, ref);
      }
    }
  }
}
