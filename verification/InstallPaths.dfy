/** Where a downloaded copy is staged, and where the copy it replaces is kept meanwhile. */
module InstallPaths {
  import opened Options
  import opened UpdateDecision
  import Decimal

  /** Paths compare component by component; only a plain name counts as a file name. */
  datatype Component = Name(name: string) | Special(text: string)

  type Path = seq<Component>

  function FileName(path: Path): Option<string> {
    if path != [] && path[|path| - 1].Name? then Some(path[|path| - 1].name) else None
  }

  function Join(directory: Path, name: string): Path {
    directory + [Name(name)]
  }

  function WithFileName(path: Path, name: string): Path
    requires path != []
  {
    Join(path[..|path| - 1], name)
  }

  // ------------------------------------------------------- the staged file's name

  function BeforeQuery(url: string): string {
    if url == "" || url[0] == '?' || url[0] == '#' then "" else [url[0]] + BeforeQuery(url[1..])
  }

  function LastSegment(path: string): string {
    if path == "" || path[|path| - 1] == '/' then "" else LastSegment(path[..|path| - 1]) + [path[|path| - 1]]
  }

  predicate PlainCharacter(c: char) {
    'a' <= c <= 'z' || 'A' <= c <= 'Z' || '0' <= c <= '9' || c == '.' || c == '-' || c == '_' || c == '+'
  }

  predicate PlainFileName(name: string) {
    && name != ""
    && |name| <= 128
    && name[0] != '.'
    && forall i :: 0 <= i < |name| ==> PlainCharacter(name[i])
  }

  function VersionText(version: Version): string {
    Decimal.Digits(version.major) + "." + Decimal.Digits(version.minor) + "." + Decimal.Digits(version.patch)
  }

  function StagedFileName(url: string, version: Version): string {
    var last := LastSegment(BeforeQuery(url));
    if PlainFileName(last) then last else "riseonly-" + VersionText(version) + ".download"
  }

  /** Version components are 32 bits wide. */
  ghost predicate Representable(version: Version) {
    version.major < 0x1_0000_0000 && version.minor < 0x1_0000_0000 && version.patch < 0x1_0000_0000
  }

  /** Whatever the feed says the URL is, the download gets a visible plain name: no separator,
      no leading dot, nothing that leaves the staging directory. */
  lemma StagedNameIsPlain(url: string, version: Version)
    requires Representable(version)
    ensures PlainFileName(StagedFileName(url, version))
    ensures var name := StagedFileName(url, version);
            && 0 < |name| <= 128 && name[0] != '.'
            && forall i :: 0 <= i < |name| ==>
                 && ' ' < name[i] <= '~'
                 && name[i] !in {'/', '\\', ':', '*', '?', '"', '<', '>', '|'}
  {
    assert Decimal.TenTo(10) > 0x1_0000_0000;
    Decimal.DigitsAreFew(version.major, 10);
    Decimal.DigitsAreFew(version.minor, 10);
    Decimal.DigitsAreFew(version.patch, 10);
  }

  // ------------------------------------------------------- the plan

  datatype InstallPlan = InstallPlan(staged: Path, installed: Path, displaced: Path)

  function DisplacedPath(installed: Path, staging: Path): Path {
    match FileName(installed)
    case Some(name) => WithFileName(installed, "." + name + ".previous")
    case None => Join(staging, "previous")
  }

  function PlanInstall(installed: Path, staging: Path, url: string, version: Version): InstallPlan {
    InstallPlan(Join(staging, StagedFileName(url, version)), installed, DisplacedPath(installed, staging))
  }

  /** The copy set aside is kept beside the installed one, so that a rename can reach it. It never lands
      on the installed one, and on the staged one only when the installation has no name and the download
      is called `previous`. */
  lemma DisplacedIsApartIff(installed: Path, staging: Path, url: string, version: Version)
    requires Representable(version)
    ensures var plan := PlanInstall(installed, staging, url, version);
            && plan.displaced != plan.installed
            && (plan.displaced != plan.staged <==>
                FileName(installed).Some? || StagedFileName(url, version) != "previous")
            && plan.installed == installed && plan.staged[..|plan.staged| - 1] == staging
            && |plan.displaced| > 0
            && (FileName(installed).Some? ==>
                  plan.displaced[..|plan.displaced| - 1] == installed[..|installed| - 1])
  {
    StagedNameIsPlain(url, version);
    var plan := PlanInstall(installed, staging, url, version);
    assert FileName(plan.staged) == Some(StagedFileName(url, version));
    if FileName(installed).Some? {
      var name := FileName(installed).value;
      assert FileName(plan.displaced) == Some("." + name + ".previous");
      assert |"." + name + ".previous"| > |name|;
      assert ("." + name + ".previous")[0] == '.';
    } else {
      assert FileName(plan.displaced) == Some("previous");
    }
  }

  /** Two numbers written with a point after the first. */
  lemma NumberBeforePoint(a: nat, rest: string, b: nat, other: string)
    requires Decimal.Digits(a) + "." + rest == Decimal.Digits(b) + "." + other
    ensures a == b && rest == other
  {
    hide Decimal.Digits;
    var x, y := Decimal.Digits(a), Decimal.Digits(b);
    var s := x + "." + rest;
    assert s[|x|] == '.' && (y + "." + other)[|y|] == '.';
    assert forall i :: 0 <= i < |x| ==> s[i] == x[i];
    assert forall i :: 0 <= i < |y| ==> (y + "." + other)[i] == y[i];
    assert |x| == |y|;
    assert s[..|x|] == x && (y + "." + other)[..|y|] == y;
    assert s[|x| + 1..] == rest && (y + "." + other)[|y| + 1..] == other;
    Decimal.DigitsAreInjective(a, b);
  }

  /** Different versions have different texts. */
  lemma VersionTextTellsVersion(v: Version, w: Version)
    requires VersionText(v) == VersionText(w)
    ensures v == w
  {
    hide Decimal.Digits;
    var rest, other := Decimal.Digits(v.minor) + "." + Decimal.Digits(v.patch),
                       Decimal.Digits(w.minor) + "." + Decimal.Digits(w.patch);
    assert VersionText(v) == Decimal.Digits(v.major) + "." + rest;
    assert VersionText(w) == Decimal.Digits(w.major) + "." + other;
    NumberBeforePoint(v.major, rest, w.major, other);
    NumberBeforePoint(v.minor, Decimal.Digits(v.patch), w.minor, Decimal.Digits(w.patch));
    Decimal.DigitsAreInjective(v.patch, w.patch);
  }

  /** When the feed gives no usable name, downloads of different versions still get different ones. */
  lemma MadeUpNamesTellVersions(url: string, otherUrl: string, v: Version, w: Version)
    requires !PlainFileName(LastSegment(BeforeQuery(url))) && !PlainFileName(LastSegment(BeforeQuery(otherUrl)))
    requires StagedFileName(url, v) == StagedFileName(otherUrl, w)
    ensures v == w
  {
    hide VersionText;
    var prefix, suffix := "riseonly-", ".download";
    var name, other := StagedFileName(url, v), StagedFileName(otherUrl, w);
    assert name[|prefix|..|name| - |suffix|] == VersionText(v);
    assert other[|prefix|..|other| - |suffix|] == VersionText(w);
    VersionTextTellsVersion(v, w);
  }

  // ------------------------------------------------------- names from the feed

  lemma {:induction false} BeforeQueryOf(path: string, query: string)
    requires '?' !in path && '#' !in path
    requires query != "" ==> query[0] == '?' || query[0] == '#'
    ensures BeforeQuery(path + query) == path
  {
    if path == "" {
      assert path + query == query;
    } else {
      assert path[0] in path;
      assert (path + query)[1..] == path[1..] + query;
      BeforeQueryOf(path[1..], query);
      assert path == [path[0]] + path[1..];
    }
  }

  lemma {:induction false} LastSegmentOf(directory: string, name: string)
    requires '/' !in name
    ensures LastSegment(directory + "/" + name) == name
    decreases |name|
  {
    var path := directory + "/" + name;
    if name == "" {
      assert path[|path| - 1] == '/';
    } else {
      var shorter := name[..|name| - 1];
      assert path[|path| - 1] == name[|name| - 1] && name[|name| - 1] in name;
      assert path[..|path| - 1] == directory + "/" + shorter;
      LastSegmentOf(directory, shorter);
      assert name == shorter + [name[|name| - 1]];
    }
  }

  /** A plain name in the feed's URL is the one the download is staged under, whatever the query
      and fragment. */
  lemma PlainNameIsKept(directory: string, name: string, query: string, version: Version)
    requires PlainFileName(name) && '?' !in directory && '#' !in directory
    requires query != "" ==> query[0] == '?' || query[0] == '#'
    ensures StagedFileName(directory + "/" + name + query, version) == name
  {
    assert forall i :: 0 <= i < |name| ==> PlainCharacter(name[i]);
    assert '?' !in name && '#' !in name && '/' !in name;
    BeforeQueryOf(directory + "/" + name, query);
    LastSegmentOf(directory, name);
  }
}
