/** Which release of a feed an installation is offered, if any, and why not otherwise. */
module UpdateDecision {
  import opened Options

  datatype Version = Version(major: nat, minor: nat, patch: nat) {
    predicate NewerThan(other: Version) {
      || major > other.major
      || (major == other.major && minor > other.minor)
      || (major == other.major && minor == other.minor && patch > other.patch)
    }
  }

  datatype ReleaseChannel = Stable | Beta {
    /** Beta takes both channels, stable only its own. */
    predicate Accepts(offered: ReleaseChannel) {
      !(Stable? && offered.Beta?)
    }
  }

  datatype Artifact = Artifact(url: string, size: nat, sha256: string)

  /** `channel` is what the feed's channel tag is known as, if it is known at all. */
  datatype Release = Release(
    version: Version,
    channel: Option<ReleaseChannel>,
    notesUrl: Option<string>,
    artifacts: map<string, Artifact>)

  datatype UpToDateReason =
    | NothingNewer
    | NewerBuildOnAnotherChannel(version: Version, channel: ReleaseChannel)
    | AheadOfFeed(newest: Version)
    | FeedEmptyForChannel

  datatype Decision =
    | UpToDate(reason: UpToDateReason)
    | Available(version: Version, channel: ReleaseChannel, target: string, artifact: Artifact, notesUrl: Option<string>)
    | NoArtifactForTarget(target: string, newest: Version)

  /** The same version on both channels is one promoted build; the stable copy is preferred. */
  predicate Beats(version: Version, channel: ReleaseChannel, other: Version, otherChannel: ReleaseChannel) {
    version.NewerThan(other) || (version == other && channel.Stable? && otherChannel.Beta?)
  }

  // ------------------------------------------------------- what a decision means

  /** An installation looking for an update. */
  datatype Query = Query(installed: Version, channel: ReleaseChannel, target: string) {

    /** On a channel this installation takes. */
    predicate Acceptable(r: Release) {
      r.channel.Some? && channel.Accepts(r.channel.value)
    }

    predicate NewerAcceptable(r: Release) {
      Acceptable(r) && r.version.NewerThan(installed)
    }

    predicate Installable(r: Release) {
      NewerAcceptable(r) && target in r.artifacts
    }

    predicate SkipsTarget(r: Release) {
      NewerAcceptable(r) && target !in r.artifacts
    }

    predicate NewerElsewhere(r: Release) {
      r.channel.Some? && !channel.Accepts(r.channel.value) && r.version.NewerThan(installed)
    }

    function Offer(r: Release): Decision
      requires Installable(r)
    {
      Available(r.version, r.channel.value, target, r.artifacts[target], r.notesUrl)
    }
  }

  /** `v` is the version of some release of the feed that `p` holds of, and none is newer. */
  ghost predicate NewestOf(feed: seq<Release>, p: Release -> bool, v: Version) {
    && (exists r :: r in feed && p(r) && r.version == v)
    && (forall r :: r in feed && p(r) ==> !r.version.NewerThan(v))
  }

  ghost predicate NoneOf(feed: seq<Release>, p: Release -> bool) {
    forall r :: r in feed ==> !p(r)
  }

  /** An installable release no installable release beats. */
  ghost predicate Top(q: Query, feed: seq<Release>, r: Release) {
    && r in feed && q.Installable(r)
    && forall s :: s in feed && q.Installable(s) ==> !Beats(s.version, s.channel.value, r.version, r.channel.value)
  }

  ghost predicate FirstTop(q: Query, feed: seq<Release>, i: int) {
    0 <= i < |feed| && Top(q, feed, feed[i]) && forall j :: 0 <= j < i ==> !Top(q, feed, feed[j])
  }

  /** The documented precedence. Between equals the feed's first entry is offered. */
  ghost predicate Decides(q: Query, feed: seq<Release>, d: Decision) {
    match d
    case Available(_, _, _, _, _) =>
      exists i :: FirstTop(q, feed, i) && d == q.Offer(feed[i])
    case NoArtifactForTarget(target, newest) =>
      && NoneOf(feed, r => q.Installable(r))
      && target == q.target && NewestOf(feed, r => q.SkipsTarget(r), newest)
    case UpToDate(NewerBuildOnAnotherChannel(version, channel)) =>
      && NoneOf(feed, r => q.NewerAcceptable(r))
      && channel == Beta && NewestOf(feed, r => q.NewerElsewhere(r), version)
    case UpToDate(AheadOfFeed(newest)) =>
      && NoneOf(feed, r => q.NewerAcceptable(r)) && NoneOf(feed, r => q.NewerElsewhere(r))
      && NewestOf(feed, r => q.Acceptable(r), newest) && q.installed.NewerThan(newest)
    case UpToDate(NothingNewer) =>
      && NoneOf(feed, r => q.NewerAcceptable(r)) && NoneOf(feed, r => q.NewerElsewhere(r))
      && NewestOf(feed, r => q.Acceptable(r), q.installed)
    case UpToDate(FeedEmptyForChannel) =>
      NoneOf(feed, r => q.Acceptable(r)) && NoneOf(feed, r => q.NewerElsewhere(r))
  }

  // ------------------------------------------------------- the one pass over the feed

  method Decide(q: Query, feed: seq<Release>) returns (decision: Decision)
    ensures Decides(q, feed, decision)
  {
    var best: Option<(Release, ReleaseChannel)> := None;
    ghost var bestAt := 0;
    var newestAcceptable: Option<Version> := None;
    var newestWithoutArtifact: Option<Version> := None;
    var newestElsewhere: Option<(Version, ReleaseChannel)> := None;

    hide Tracks, NewestOf, NoneOf, FirstTop, Top;
    assert feed[..0] == [];
    NothingTracked(r => q.Installable(r));
    NothingTracked(r => q.Acceptable(r));
    NothingTracked(r => q.SkipsTarget(r));
    NothingTracked(r => q.NewerElsewhere(r));
    for n := 0 to |feed|
      invariant best.None? ==> NoneOf(feed[..n], r => q.Installable(r))
      invariant best.Some? ==>
                  && 0 <= bestAt < n && feed[bestAt].channel.Some? && FirstTop(q, feed[..n], bestAt)
                  && best.value == (feed[bestAt], feed[bestAt].channel.value)
      invariant Tracks(feed[..n], r => q.Acceptable(r), newestAcceptable)
      invariant Tracks(feed[..n], r => q.SkipsTarget(r), newestWithoutArtifact)
      invariant Tracks(feed[..n], r => q.NewerElsewhere(r),
                       if newestElsewhere.None? then None else Some(newestElsewhere.value.0))
      invariant newestElsewhere.Some? ==> newestElsewhere.value.1 == Beta
    {
      var release := feed[n];
      assert feed[..n + 1] == feed[..n] + [release];
      TrackOne(feed[..n], release, r => q.Acceptable(r), newestAcceptable);
      TrackOne(feed[..n], release, r => q.SkipsTarget(r), newestWithoutArtifact);
      TrackOne(feed[..n], release, r => q.NewerElsewhere(r),
               if newestElsewhere.None? then None else Some(newestElsewhere.value.0));
      TopOne(q, feed[..n], release, best.Some?, bestAt);

      if release.channel.None? {
        continue;
      }
      var offered := release.channel.value;
      if !q.channel.Accepts(offered) {
        if release.version.NewerThan(q.installed) &&
           (newestElsewhere.None? || release.version.NewerThan(newestElsewhere.value.0)) {
          newestElsewhere := Some((release.version, offered));
        }
        continue;
      }

      if newestAcceptable.None? || release.version.NewerThan(newestAcceptable.value) {
        newestAcceptable := Some(release.version);
      }
      if !release.version.NewerThan(q.installed) {
        continue;
      }

      if q.target in release.artifacts {
        if best.None? || Beats(release.version, offered, best.value.0.version, best.value.1) {
          best := Some((release, offered));
          bestAt := n;
        }
      } else if newestWithoutArtifact.None? || release.version.NewerThan(newestWithoutArtifact.value) {
        newestWithoutArtifact := Some(release.version);
      }
    }
    assert feed[..|feed|] == feed;
    decision := Conclude(q, feed, best, bestAt, newestAcceptable, newestWithoutArtifact, newestElsewhere);
  }

  /** The precedence, once the whole feed has been seen. */
  method Conclude(q: Query, feed: seq<Release>, best: Option<(Release, ReleaseChannel)>, ghost bestAt: int,
                  newestAcceptable: Option<Version>, newestWithoutArtifact: Option<Version>,
                  newestElsewhere: Option<(Version, ReleaseChannel)>)
    returns (decision: Decision)
    requires best.None? ==> NoneOf(feed, r => q.Installable(r))
    requires best.Some? ==>
               && 0 <= bestAt < |feed| && feed[bestAt].channel.Some? && FirstTop(q, feed, bestAt)
               && best.value == (feed[bestAt], feed[bestAt].channel.value)
    requires Tracks(feed, r => q.Acceptable(r), newestAcceptable)
    requires Tracks(feed, r => q.SkipsTarget(r), newestWithoutArtifact)
    requires Tracks(feed, r => q.NewerElsewhere(r),
                    if newestElsewhere.None? then None else Some(newestElsewhere.value.0))
    requires newestElsewhere.Some? ==> newestElsewhere.value.1 == Beta
    ensures Decides(q, feed, decision)
  {
    if best.Some? {
      var (release, offered) := best.value;
      return Available(release.version, offered, q.target, release.artifacts[q.target], release.notesUrl);
    }
    if newestWithoutArtifact.Some? {
      return NoArtifactForTarget(q.target, newestWithoutArtifact.value);
    }
    if newestElsewhere.Some? {
      return UpToDate(NewerBuildOnAnotherChannel(newestElsewhere.value.0, newestElsewhere.value.1));
    }
    if newestAcceptable.None? {
      return UpToDate(FeedEmptyForChannel);
    }
    if q.installed.NewerThan(newestAcceptable.value) {
      return UpToDate(AheadOfFeed(newestAcceptable.value));
    }
    VersionsCompare(q.installed, newestAcceptable.value);
    return UpToDate(NothingNewer);
  }

  lemma VersionsCompare(a: Version, b: Version)
    ensures a.NewerThan(b) || a == b || b.NewerThan(a)
    ensures !(a.NewerThan(b) && b.NewerThan(a))
  {
  }

  /** An accumulator that holds the newest version among the releases `p` holds of. */
  ghost predicate Tracks(feed: seq<Release>, p: Release -> bool, newest: Option<Version>) {
    if newest.None? then NoneOf(feed, p) else NewestOf(feed, p, newest.value)
  }

  lemma NothingTracked(p: Release -> bool)
    ensures NoneOf([], p) && Tracks([], p, None)
  {
  }

  lemma TrackOne(feed: seq<Release>, release: Release, p: Release -> bool, newest: Option<Version>)
    requires Tracks(feed, p, newest)
    ensures Tracks(feed + [release], p,
                   if p(release) && (newest.None? || release.version.NewerThan(newest.value)) then Some(release.version)
                   else newest)
  {
    assert forall r :: r in feed + [release] <==> r in feed || r == release;
  }

  lemma TopOne(q: Query, feed: seq<Release>, release: Release, found: bool, top: int)
    requires if found then FirstTop(q, feed, top) else NoneOf(feed, r => q.Installable(r))
    ensures var longer := feed + [release];
            if q.Installable(release) && (!found || Beats(release.version, release.channel.value,
                                                          feed[top].version, feed[top].channel.value))
            then FirstTop(q, longer, |feed|)
            else if found then FirstTop(q, longer, top) else NoneOf(longer, r => q.Installable(r))
  {
    var longer := feed + [release];
    assert forall r :: r in longer <==> r in feed || r == release;
    assert longer[|feed|] == release;
    forall j | 0 <= j < |feed| && Top(q, longer, longer[j])
      ensures Top(q, feed, feed[j])
      ensures found && feed[j].version == feed[top].version && feed[j].channel == feed[top].channel
    {
      assert longer[j] == feed[j];
      TopsAreEqual(q, feed, feed[j], feed[top]);
    }
  }

  /** Two releases neither of which is beaten are the same version on the same channel. */
  lemma TopsAreEqual(q: Query, feed: seq<Release>, r: Release, s: Release)
    requires Top(q, feed, r) && Top(q, feed, s)
    ensures r.version == s.version && r.channel == s.channel
  {
    VersionsCompare(r.version, s.version);
  }

  // ------------------------------------------------------- order of the feed

  ghost predicate SameReleases(feed: seq<Release>, other: seq<Release>) {
    forall r :: r in feed <==> r in other
  }

  /** All releases that nothing beats carry the same download and notes. */
  ghost predicate OneTopOffer(q: Query, feed: seq<Release>) {
    forall r, s :: Top(q, feed, r) && Top(q, feed, s) ==> q.Offer(r) == q.Offer(s)
  }

  lemma SameDecision(q: Query, feed: seq<Release>, other: seq<Release>, a: Decision, b: Decision)
    requires SameReleases(feed, other) && (feed == other || OneTopOffer(q, feed))
    requires Decides(q, feed, a) && Decides(q, other, b)
    ensures a == b
  {
    if a.Available? && b.Available? {
      var i :| FirstTop(q, feed, i) && a == q.Offer(feed[i]);
      var j :| FirstTop(q, other, j) && b == q.Offer(other[j]);
      assert Top(q, feed, other[j]);
      if feed == other {
        assert i == j;
      }
    }
  }

  ghost predicate Reorders(feed: seq<Release>, other: seq<Release>) {
    multiset(feed) == multiset(other)
  }

  /** However the feed is ordered, the decision is the same. */
  ghost predicate OrderNeverMatters(q: Query, feed: seq<Release>) {
    forall one, two, a, b ::
      Reorders(feed, one) && Reorders(feed, two) && Decides(q, one, a) && Decides(q, two, b) ==> a == b
  }

  lemma ReorderedHasSame(feed: seq<Release>, other: seq<Release>)
    requires Reorders(feed, other)
    ensures SameReleases(feed, other)
  {
    forall r ensures r in feed <==> r in other {
      assert r in feed <==> r in multiset(feed);
      assert r in other <==> r in multiset(other);
    }
  }

  /** Some order of the feed offers any release that nothing beats. */
  lemma AnyTopCanBeOffered(q: Query, feed: seq<Release>, r: Release) returns (other: seq<Release>)
    requires Top(q, feed, r)
    ensures Reorders(feed, other) && Decides(q, other, q.Offer(r))
  {
    var i :| 0 <= i < |feed| && feed[i] == r;
    assert feed == feed[..i] + [r] + feed[i + 1..];
    other := [r] + feed[..i] + feed[i + 1..];
    ReorderedHasSame(feed, other);
    assert FirstTop(q, other, 0);
  }

  /** The order of the feed is irrelevant exactly when the unbeaten releases agree on what is
      to be downloaded; a feed that lists a version once per channel is always such a feed. */
  lemma OrderNeverMattersIff(q: Query, feed: seq<Release>)
    ensures OrderNeverMatters(q, feed) <==> OneTopOffer(q, feed)
    ensures (forall r, s :: r in feed && s in feed && r.version == s.version && r.channel == s.channel ==> r == s)
            ==> OneTopOffer(q, feed)
  {
    if OneTopOffer(q, feed) {
      forall one, two, a, b
        | Reorders(feed, one) && Reorders(feed, two) && Decides(q, one, a) && Decides(q, two, b)
        ensures a == b
      {
        ReorderedHasSame(feed, one);
        ReorderedHasSame(feed, two);
        assert forall r :: Top(q, one, r) <==> Top(q, feed, r);
        SameDecision(q, one, two, a, b);
      }
    } else {
      var r, s :| Top(q, feed, r) && Top(q, feed, s) && q.Offer(r) != q.Offer(s);
      var one := AnyTopCanBeOffered(q, feed, r);
      var two := AnyTopCanBeOffered(q, feed, s);
      assert !OrderNeverMatters(q, feed);
    }
    forall r, s | Top(q, feed, r) && Top(q, feed, s) ensures r.version == s.version && r.channel == s.channel {
      TopsAreEqual(q, feed, r, s);
    }
  }

  /** A digit written after the digits of `high`. */
  function Positional(high: nat, low: nat, base: nat): nat {
    high * base + low
  }

  /** Versions are ordered as numbers of three digits, in any base greater than their components. */
  lemma VersionsAreNumbers(a: Version, b: Version, base: nat)
    requires a.major < base && a.minor < base && a.patch < base
    requires b.major < base && b.minor < base && b.patch < base
    ensures a.NewerThan(b) <==>
              Positional(Positional(a.major, a.minor, base), a.patch, base)
              > Positional(Positional(b.major, b.minor, base), b.patch, base)
  {
    hide Positional;
    DigitDecides(a.major, a.minor, b.major, b.minor, base);
    DigitDecides(Positional(a.major, a.minor, base), a.patch, Positional(b.major, b.minor, base), b.patch, base);
  }

  lemma DigitDecides(high: nat, low: nat, otherHigh: nat, otherLow: nat, base: nat)
    requires low < base && otherLow < base
    ensures Positional(high, low, base) > Positional(otherHigh, otherLow, base)
            <==> high > otherHigh || (high == otherHigh && low > otherLow)
    ensures Positional(high, low, base) == Positional(otherHigh, otherLow, base)
            <==> high == otherHigh && low == otherLow
  {
    if high > otherHigh {
      assert high * base >= (otherHigh + 1) * base;
    } else if high < otherHigh {
      assert otherHigh * base >= (high + 1) * base;
    }
  }

  /** A stable installation is never offered a beta, a beta one is offered from both channels, and a
      beta is offered only if there is no stable build of its version to install. */
  lemma OfferRespectsChannels(q: Query, feed: seq<Release>, d: Decision)
    requires Decides(q, feed, d)
    ensures q.channel.Stable? && d.Available? ==> d.channel.Stable?
    ensures d.Available? && d.channel.Beta? ==>
              forall r :: r in feed && r.version == d.version && r.channel == Some(Stable) ==> q.target !in r.artifacts
    ensures q.channel.Beta? && !d.Available? ==>
              forall r :: r in feed && r.channel.Some? && r.version.NewerThan(q.installed) ==> q.target !in r.artifacts
    ensures d.Available? ==>
              forall r :: (r in feed && r.channel.Some? && (q.channel.Beta? || r.channel == Some(Stable))
                           && q.target in r.artifacts) ==> !r.version.NewerThan(d.version)
  {
    if d.Available? {
      var i :| FirstTop(q, feed, i) && d == q.Offer(feed[i]);
      forall r | r in feed && r.channel.Some? && (q.channel.Beta? || r.channel == Some(Stable))
                 && q.target in r.artifacts
        ensures !r.version.NewerThan(d.version)
      {
        assert r.version.NewerThan(d.version) ==> q.Installable(r);
      }
      if d.channel.Beta? {
        forall r | r in feed && r.version == d.version && r.channel == Some(Stable) ensures q.target !in r.artifacts {
          assert q.target in r.artifacts ==> q.Installable(r);
        }
      }
    } else {
      forall r | r in feed && q.channel.Beta? && r.channel.Some? && r.version.NewerThan(q.installed)
        ensures q.target !in r.artifacts
      {
        OfferIsAnUpgrade(q, feed, d);
        assert !q.Installable(r);
      }
    }
  }

  /** Listed on a channel an installation on `channel` takes. */
  predicate Taken(channel: ReleaseChannel, r: Release) {
    r.channel == Some(Stable) || (r.channel == Some(Beta) && channel.Beta?)
  }

  lemma TakenIsAcceptable(q: Query, r: Release)
    ensures Taken(q.channel, r) <==> q.Acceptable(r)
  {
    if r.channel.Some? {
      match r.channel.value { case Stable => case Beta => }
    }
  }

  ghost predicate SomeRelease(feed: seq<Release>, p: Release -> bool) {
    exists r :: r in feed && p(r)
  }

  /** Why nothing is offered, in the order of precedence: a newer build that skips the target, a newer
      beta for an installation that takes none, being ahead of the feed, being level with it, and
      a feed with nothing to take. The version named is in the feed, and none of its kind is newer. */
  lemma RefusalSaysWhy(q: Query, feed: seq<Release>, d: Decision)
    requires Decides(q, feed, d) && !d.Available?
    ensures var newer := SomeRelease(feed, (r: Release) => Taken(q.channel, r) && r.version.NewerThan(q.installed));
            var beta := q.channel.Stable?
                        && SomeRelease(feed,
                                       (r: Release) => r.channel == Some(Beta) && r.version.NewerThan(q.installed));
            var any := SomeRelease(feed, (r: Release) => Taken(q.channel, r));
            var level := SomeRelease(feed, (r: Release) => Taken(q.channel, r) && r.version == q.installed);
            && (d.NoArtifactForTarget? <==> newer)
            && (d.UpToDate? && d.reason.NewerBuildOnAnotherChannel? <==> !newer && beta)
            && (d.UpToDate? && d.reason.AheadOfFeed? <==> !newer && !beta && any && !level)
            && (d.UpToDate? && d.reason.NothingNewer? <==> !newer && !beta && level)
            && (d.UpToDate? && d.reason.FeedEmptyForChannel? <==> !newer && !beta && !any)
  {
    hide FirstTop, Top;
    forall r ensures Taken(q.channel, r) <==> q.Acceptable(r) {
      TakenIsAcceptable(q, r);
    }
    OfferIsAnUpgrade(q, feed, d);
    match d
    case NoArtifactForTarget(_, newest) =>
      var r :| r in feed && q.SkipsTarget(r) && r.version == newest;
    case UpToDate(NewerBuildOnAnotherChannel(version, _)) =>
      var r :| r in feed && q.NewerElsewhere(r) && r.version == version;
      assert r.channel == Some(Beta);
    case UpToDate(AheadOfFeed(newest)) =>
      var r :| r in feed && q.Acceptable(r) && r.version == newest;
    case UpToDate(NothingNewer) =>
      var r :| r in feed && q.Acceptable(r) && r.version == q.installed;
    case UpToDate(FeedEmptyForChannel) =>
  }

  /** The version a refusal names is the newest there is of what it speaks of. */
  lemma RefusalNamesNewest(q: Query, feed: seq<Release>, d: Decision, r: Release)
    requires Decides(q, feed, d) && r in feed
    ensures d.NoArtifactForTarget? && Taken(q.channel, r) ==> !r.version.NewerThan(d.newest) && d.target == q.target
    ensures d.UpToDate? && d.reason.NewerBuildOnAnotherChannel? && r.channel == Some(Beta) ==>
              !r.version.NewerThan(d.reason.version) && d.reason.channel == Beta
    ensures d.UpToDate? && d.reason.AheadOfFeed? && Taken(q.channel, r) ==>
              !r.version.NewerThan(d.reason.newest) && q.installed.NewerThan(d.reason.newest)
  {
    hide FirstTop, Top;
    TakenIsAcceptable(q, r);
    if d.NoArtifactForTarget? {
      assert !q.Installable(r);
    }
  }

  /** What is offered is strictly newer, on a channel taken, and built for the target; and it is
      offered whenever there is such a release. */
  lemma OfferIsAnUpgrade(q: Query, feed: seq<Release>, d: Decision)
    requires Decides(q, feed, d)
    ensures d.Available? ==> d.version.NewerThan(q.installed) && q.channel.Accepts(d.channel)
    ensures d.Available? <==> exists r :: r in feed && q.Installable(r)
    ensures d.Available? ==>
              exists r :: r in feed && r.channel == Some(d.channel) && q.target in r.artifacts
                          && d == Available(r.version, d.channel, q.target, r.artifacts[q.target], r.notesUrl)
  {
    if d.Available? {
      var i :| FirstTop(q, feed, i) && d == q.Offer(feed[i]);
      assert q.Installable(feed[i]);
    }
  }
}
