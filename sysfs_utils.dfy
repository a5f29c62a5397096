/**
 * Re-resolution of a fan's sysfs paths at daemon start-up: attribute names derived from the
 * configured paths, the ordered list of hwmon directories to search, and the search itself.
 * Hardware-monitoring device numbering can change between boots, so a configured
 * `pwm_path` that no longer exists is looked up again under the same attribute name.
 */
module SysfsUtils {
  import opened Wrappers
  import opened Text
  import opened StringOrder
  import opened Config
  import Sysfs

  const HwmonGlob: string := "/sys/class/hwmon/hwmon*"

  /** `_read_strip`: the stripped text of a file, or `None` when it cannot be read. */
  function ReadStrip(fs: Sysfs.Sysfs, path: string): Option<string>
    reads fs
  {
    match fs.Read(path)
    case None => None
    case Some(t) => Some(Strip(t))
  }

  /** The tachometer attribute that belongs to a `pwmN` attribute: `fanN_input` (`fan1_input` for a bare `pwm`). */
  function RpmAttrFor(pwmAttr: string): string
    requires "pwm" <= pwmAttr
  {
    "fan" + (if pwmAttr[3..] == "" then "1" else pwmAttr[3..]) + "_input"
  }

  /** `ensure_fan_metadata`: fill in missing attribute names from the paths, or from the pwm
      attribute by the hwmon naming convention. */
  function EnsureFanMetadata(fan: Fan): Fan {
    var pwmAttr := if fan.pwmAttr == "" && fan.pwmPath != "" then Basename(fan.pwmPath) else fan.pwmAttr;
    var enableAttr :=
      if fan.enableAttr != "" then fan.enableAttr
      else if fan.enablePath != "" then Basename(fan.enablePath)
      else if pwmAttr != "" then pwmAttr + "_enable"
      else fan.enableAttr;
    var rpmAttr :=
      if fan.rpmAttr != "" then fan.rpmAttr
      else if fan.rpmPath != "" then Basename(fan.rpmPath)
      else if pwmAttr != "" && "pwm" <= pwmAttr then RpmAttrFor(pwmAttr)
      else fan.rpmAttr;
    fan.(pwmAttr := pwmAttr, enableAttr := enableAttr, rpmAttr := rpmAttr)
  }

  /** Only the three attribute fields change, and a non-empty one is never overwritten. */
  lemma EnsureFanMetadataKeeps(fan: Fan)
    ensures var r := EnsureFanMetadata(fan);
      && r.(pwmAttr := fan.pwmAttr, enableAttr := fan.enableAttr, rpmAttr := fan.rpmAttr) == fan
      && (fan.pwmAttr != "" ==> r.pwmAttr == fan.pwmAttr)
      && (fan.enableAttr != "" ==> r.enableAttr == fan.enableAttr)
      && (fan.rpmAttr != "" ==> r.rpmAttr == fan.rpmAttr)
  {
  }

  /** Filling in metadata twice is the same as once. */
  lemma EnsureFanMetadataIdempotent(fan: Fan)
    ensures EnsureFanMetadata(EnsureFanMetadata(fan)) == EnsureFanMetadata(fan)
  {
  }

  /** The defaults derived for a fan that names only its pwm attribute path, with `N` the
      attribute's suffix: `pwmN`, `pwmN_enable` and `fanN_input`. */
  lemma EnsureFanMetadataDefaults(fan: Fan, dir: string, n: string)
    requires fan.pwmAttr == "" && fan.enableAttr == "" && fan.rpmAttr == ""
    requires fan.enablePath == "" && fan.rpmPath == ""
    requires '/' !in n && |n| > 0
    requires fan.pwmPath == Join(dir, "pwm" + n)
    ensures EnsureFanMetadata(fan).pwmAttr == "pwm" + n
    ensures EnsureFanMetadata(fan).enableAttr == "pwm" + n + "_enable"
    ensures EnsureFanMetadata(fan).rpmAttr == "fan" + n + "_input"
  {
    assert '/' !in "pwm" + n by {
      assert forall i :: 0 <= i < |n| ==> ("pwm" + n)[i + 3] == n[i];
    }
    BasenameOfJoin(dir, "pwm" + n);
    assert ("pwm" + n)[3..] == n;
  }

  /** The canonical path `add_path` looks at for `p` (`""` for an empty `p`, which it skips). */
  function Real(fs: Sysfs.Sysfs, p: string): string {
    if p == "" then "" else fs.Realpath(p)
  }

  /** One `add_path` call: append the real path when it is a directory not yet seen. */
  function AddOne(fs: Sysfs.Sysfs, c: seq<string>, p: string): seq<string> {
    var r := Real(fs, p);
    if r in c || !fs.IsDir(r) then c else c + [r]
  }

  /** `add_path` applied to each of `ps` in turn, starting from no candidates. */
  function DedupDirs(fs: Sysfs.Sysfs, ps: seq<string>): seq<string> {
    if |ps| == 0 then [] else AddOne(fs, DedupDirs(fs, ps[..|ps| - 1]), ps[|ps| - 1])
  }

  ghost predicate NoDup(s: seq<string>) {
    forall i, j :: 0 <= i < j < |s| ==> s[i] != s[j]
  }

  /** Some entry of `ps` has `x` as its real path. */
  ghost predicate Mentions(fs: Sysfs.Sysfs, ps: seq<string>, x: string) {
    exists a :: 0 <= a < |ps| && Real(fs, ps[a]) == x
  }

  /** The candidate list holds no path twice, holds only directories, and holds exactly the
      real paths of the given entries that are directories. */
  lemma {:induction false} DedupDirsSound(fs: Sysfs.Sysfs, ps: seq<string>)
    ensures NoDup(DedupDirs(fs, ps))
    ensures forall x :: x in DedupDirs(fs, ps) <==> fs.IsDir(x) && Mentions(fs, ps, x)
  {
    if |ps| > 0 {
      var init := ps[..|ps| - 1];
      DedupDirsSound(fs, init);
      forall x ensures Mentions(fs, ps, x) <==> Mentions(fs, init, x) || Real(fs, ps[|ps| - 1]) == x {
        if Mentions(fs, ps, x) {
          var a :| 0 <= a < |ps| && Real(fs, ps[a]) == x;
          if a < |init| { assert init[a] == ps[a]; }
        }
        if Mentions(fs, init, x) {
          var a :| 0 <= a < |init| && Real(fs, init[a]) == x;
          assert ps[a] == init[a];
        }
      }
    }
  }

  /** On a file system whose links are resolved, every candidate is already canonical:
      resolving it again gives itself, so later `isdir`/`exists` tests see the same path. */
  lemma DedupDirsCanonical(fs: Sysfs.Sysfs, ps: seq<string>, x: string)
    requires fs.LinksResolved() && x in DedupDirs(fs, ps)
    ensures fs.Realpath(x) == x
  {
    DedupDirsSound(fs, ps);
    var a :| 0 <= a < |ps| && Real(fs, ps[a]) == x;
    fs.RealpathIdempotent(ps[a]);
  }

  /** Every entry of the candidate list first appears, among the real paths of `ps`, before
      any occurrence of the entries listed after it. */
  lemma {:induction false} DedupDirsOrder(fs: Sysfs.Sysfs, ps: seq<string>, i: int, j: int)
    requires 0 <= i < j < |DedupDirs(fs, ps)|
    ensures exists a :: 0 <= a < |ps| && Real(fs, ps[a]) == DedupDirs(fs, ps)[i]
              && forall b :: 0 <= b < |ps| && Real(fs, ps[b]) == DedupDirs(fs, ps)[j] ==> a < b
  {
    var init := ps[..|ps| - 1];
    var c := DedupDirs(fs, init);
    var d := DedupDirs(fs, ps);
    var last := Real(fs, ps[|ps| - 1]);
    DedupDirsSound(fs, init);
    if j < |c| {
      assert d[i] == c[i] && d[j] == c[j];
      DedupDirsOrder(fs, init, i, j);
      var a :| 0 <= a < |init| && Real(fs, init[a]) == c[i]
               && forall b :: 0 <= b < |init| && Real(fs, init[b]) == c[j] ==> a < b;
      assert ps[a] == init[a];
      forall b | 0 <= b < |ps| && Real(fs, ps[b]) == d[j] ensures a < b {
        if b < |init| { assert init[b] == ps[b]; }
      }
    } else {
      assert d == c + [last] && d[j] == last && last !in c && fs.IsDir(last);
      assert d[i] == c[i] && c[i] in c;
      assert Mentions(fs, init, c[i]);
      var a :| 0 <= a < |init| && Real(fs, init[a]) == c[i];
      assert ps[a] == init[a];
      forall b | 0 <= b < |ps| && Real(fs, ps[b]) == d[j] ensures a < b {
        if b < |init| {
          assert false;
        }
      }
    }
  }

  /** The hwmon directories among `dirs` whose `name` file reads `name` (the hwmon_name loop's filter). */
  function NameMatches(fs: Sysfs.Sysfs, dirs: seq<string>, name: string): seq<string>
    reads fs
  {
    if |dirs| == 0 then []
    else NameMatches(fs, dirs[..|dirs| - 1], name)
         + (if ReadStrip(fs, Join(dirs[|dirs| - 1], "name")) == Some(name) then [dirs[|dirs| - 1]] else [])
  }

  /** `glob(join(device_path, "hwmon", "hwmon*"))`, sorted. */
  function DeviceHwmonDirs(fs: Sysfs.Sysfs, devicePath: string): seq<string> {
    SortStrings(fs.Glob(Join(Join(devicePath, "hwmon"), "hwmon*")))
  }

  /** Every path `_candidate_directories` hands to `add_path`, in order: the hwmon hint, the
      pwm path's directory, the device's hwmon directories, the hwmon directories with the
      recorded name, then all hwmon directories. */
  function RawCandidates(fan: Fan, fs: Sysfs.Sysfs): seq<string>
    reads fs
  {
    var dir := Dirname(fan.pwmPath);
    (if fan.hwmonPathHint != "" then [fan.hwmonPathHint] else [])
    + (if fan.pwmPath != "" && dir != "" then [dir] else [])
    + (if fan.devicePath != "" then DeviceHwmonDirs(fs, fan.devicePath) else [])
    + (if fan.hwmonName != "" then NameMatches(fs, fs.Glob(HwmonGlob), fan.hwmonName) else [])
    + fs.Glob(HwmonGlob)
  }

  /** The directories `_candidate_directories` yields. */
  function Candidates(fan: Fan, fs: Sysfs.Sysfs): seq<string>
    reads fs
  {
    DedupDirs(fs, RawCandidates(fan, fs))
  }

  lemma DedupDirsSnoc(fs: Sysfs.Sysfs, ps: seq<string>, p: string)
    ensures DedupDirs(fs, ps + [p]) == AddOne(fs, DedupDirs(fs, ps), p)
  {
    assert (ps + [p])[..|ps|] == ps;
  }

  /** The nested `add_path`: `seen` holds exactly the candidates added so far. */
  method AddPath(fs: Sysfs.Sysfs, seen: set<string>, candidates: seq<string>, path: string)
    returns (seen': set<string>, candidates': seq<string>)
    requires seen == set x | x in candidates
    ensures candidates' == AddOne(fs, candidates, path)
    ensures seen' == set x | x in candidates'
  {
    seen', candidates' := seen, candidates;
    if path == "" {
      return;
    }
    var resolved := fs.Realpath(path);
    if resolved in seen {
      return;
    }
    if fs.IsDir(resolved) {
      seen' := seen + {resolved};
      candidates' := candidates + [resolved];
    }
  }

  /** `add_path` over every one of `ps` in turn (one of the `for hw_dir in ...` loops). */
  method AddPaths(fs: Sysfs.Sysfs, seen: set<string>, candidates: seq<string>, ghost raw: seq<string>, ps: seq<string>)
    returns (seen': set<string>, candidates': seq<string>)
    requires candidates == DedupDirs(fs, raw) && seen == set x | x in candidates
    ensures candidates' == DedupDirs(fs, raw + ps) && seen' == set x | x in candidates'
  {
    seen', candidates' := seen, candidates;
    assert raw + ps[..0] == raw;
    for k := 0 to |ps|
      invariant candidates' == DedupDirs(fs, raw + ps[..k]) && seen' == set x | x in candidates'
    {
      DedupDirsSnoc(fs, raw + ps[..k], ps[k]);
      seen', candidates' := AddPath(fs, seen', candidates', ps[k]);
      assert raw + ps[..k + 1] == raw + ps[..k] + [ps[k]];
    }
    assert ps[..|ps|] == ps;
  }

  /** The `hwmon_name` loop: `add_path` over the directories whose `name` file matches. */
  method AddNamed(fs: Sysfs.Sysfs, seen: set<string>, candidates: seq<string>, ghost raw: seq<string>,
                  dirs: seq<string>, hwmonName: string)
    returns (seen': set<string>, candidates': seq<string>)
    requires candidates == DedupDirs(fs, raw) && seen == set x | x in candidates
    ensures candidates' == DedupDirs(fs, raw + NameMatches(fs, dirs, hwmonName)) && seen' == set x | x in candidates'
  {
    seen', candidates' := seen, candidates;
    assert raw + NameMatches(fs, dirs[..0], hwmonName) == raw;
    for k := 0 to |dirs|
      invariant candidates' == DedupDirs(fs, raw + NameMatches(fs, dirs[..k], hwmonName))
      invariant seen' == set x | x in candidates'
    {
      assert dirs[..k + 1][..k] == dirs[..k] && dirs[..k + 1][k] == dirs[k];
      ghost var step := if ReadStrip(fs, Join(dirs[k], "name")) == Some(hwmonName) then [dirs[k]] else [];
      assert NameMatches(fs, dirs[..k + 1], hwmonName) == NameMatches(fs, dirs[..k], hwmonName) + step;
      var name := ReadStrip(fs, Join(dirs[k], "name"));
      if name == Some(hwmonName) {
        DedupDirsSnoc(fs, raw + NameMatches(fs, dirs[..k], hwmonName), dirs[k]);
        seen', candidates' := AddPath(fs, seen', candidates', dirs[k]);
      } else {
        assert raw + NameMatches(fs, dirs[..k], hwmonName) + step == raw + NameMatches(fs, dirs[..k], hwmonName);
      }
      assert raw + NameMatches(fs, dirs[..k + 1], hwmonName) == raw + NameMatches(fs, dirs[..k], hwmonName) + step;
    }
    assert dirs[..|dirs|] == dirs;
  }

  /** `_candidate_directories`: the search order for a fan's pwm attribute, with no directory
      listed twice and only directories listed. */
  method CandidateDirectories(fan: Fan, fs: Sysfs.Sysfs) returns (candidates: seq<string>)
    ensures candidates == Candidates(fan, fs)
    ensures NoDup(candidates) && forall x :: x in candidates ==> fs.IsDir(x)
  {
    var seen: set<string> := {};
    candidates := [];
    var p1 := if fan.hwmonPathHint != "" then [fan.hwmonPathHint] else [];
    seen, candidates := AddPaths(fs, seen, candidates, [], p1);
    var dir := Dirname(fan.pwmPath);
    var p2 := if fan.pwmPath != "" && dir != "" then [dir] else [];
    seen, candidates := AddPaths(fs, seen, candidates, p1, p2);
    var p3 := if fan.devicePath != "" then DeviceHwmonDirs(fs, fan.devicePath) else [];
    seen, candidates := AddPaths(fs, seen, candidates, p1 + p2, p3);
    var all := fs.Glob(HwmonGlob);
    ghost var p4: seq<string> := [];
    if fan.hwmonName != "" {
      seen, candidates := AddNamed(fs, seen, candidates, p1 + p2 + p3, all, fan.hwmonName);
      p4 := NameMatches(fs, all, fan.hwmonName);
    } else {
      assert p1 + p2 + p3 + p4 == p1 + p2 + p3;
    }
    seen, candidates := AddPaths(fs, seen, candidates, p1 + p2 + p3 + p4, all);
    assert p1 + p2 + p3 + p4 + all == RawCandidates(fan, fs);
    DedupDirsSound(fs, RawCandidates(fan, fs));
  }

  /** `_populate_related_paths`: record the directory, its name and device when they are not
      known yet, and point the enable and tachometer paths at the directory's attributes when
      those exist. */
  function PopulateRelatedPaths(fan: Fan, hwDir: string, fs: Sysfs.Sysfs): Fan
    reads fs
  {
    var hint := if fan.hwmonPathHint == "" then hwDir else fan.hwmonPathHint;
    var name :=
      if fan.hwmonName != "" then fan.hwmonName
      else match ReadStrip(fs, Join(hwDir, "name"))
        case Some(n) => if n != "" then n else fan.hwmonName
        case None => fan.hwmonName;
    var device := Join(hwDir, "device");
    var devicePath := if fan.devicePath == "" && fs.Exists(device) then fs.Realpath(device) else fan.devicePath;
    var enableCandidate := Join(hwDir, fan.enableAttr);
    var enablePath := if fan.enableAttr != "" && fs.Exists(enableCandidate) then enableCandidate else fan.enablePath;
    var rpmCandidate := Join(hwDir, fan.rpmAttr);
    var rpmPath := if fan.rpmAttr != "" && fs.Exists(rpmCandidate) then rpmCandidate else fan.rpmPath;
    fan.(hwmonPathHint := hint, hwmonName := name, devicePath := devicePath,
         enablePath := enablePath, rpmPath := rpmPath)
  }

  /** Known hint, name and device are kept; the enable and rpm paths change only to an
      existing attribute of the directory; nothing else changes. */
  lemma PopulateRelatedPathsKeeps(fan: Fan, hwDir: string, fs: Sysfs.Sysfs)
    ensures var r := PopulateRelatedPaths(fan, hwDir, fs);
      && r.(hwmonPathHint := fan.hwmonPathHint, hwmonName := fan.hwmonName, devicePath := fan.devicePath,
            enablePath := fan.enablePath, rpmPath := fan.rpmPath) == fan
      && (fan.hwmonPathHint != "" ==> r.hwmonPathHint == fan.hwmonPathHint)
      && (fan.hwmonName != "" ==> r.hwmonName == fan.hwmonName)
      && (fan.devicePath != "" ==> r.devicePath == fan.devicePath)
      && (r.enablePath != fan.enablePath ==>
            fan.enableAttr != "" && r.enablePath == Join(hwDir, fan.enableAttr) && fs.Exists(r.enablePath))
      && (r.rpmPath != fan.rpmPath ==>
            fan.rpmAttr != "" && r.rpmPath == Join(hwDir, fan.rpmAttr) && fs.Exists(r.rpmPath))
  {
  }

  /** The first of `dirs` holding the attribute `attr`. */
  function FirstHolding(fs: Sysfs.Sysfs, dirs: seq<string>, attr: string): (r: Option<nat>)
    reads fs
    ensures r.Some? ==> r.value < |dirs| && fs.Exists(Join(dirs[r.value], attr))
                        && forall i :: 0 <= i < r.value ==> !fs.Exists(Join(dirs[i], attr))
    ensures r.None? ==> forall i :: 0 <= i < |dirs| ==> !fs.Exists(Join(dirs[i], attr))
  {
    if |dirs| == 0 then None
    else if fs.Exists(Join(dirs[0], attr)) then Some(0)
    else match FirstHolding(fs, dirs[1..], attr)
      case None => None
      case Some(k) => Some(k + 1)
  }

  /** `resolve_fan_paths`: the fan as it is left, and whether a pwm path was confirmed. */
  function ResolveSpec(fan: Fan, fs: Sysfs.Sysfs): (Fan, bool)
    reads fs
  {
    var f := EnsureFanMetadata(fan);
    if f.pwmPath != "" && fs.Exists(f.pwmPath) then
      var hw := fs.Realpath(Dirname(f.pwmPath));
      (PopulateRelatedPaths(f.(hwmonPathHint := hw), hw, fs), true)
    else if f.pwmAttr == "" then (f, false)
    else
      var dirs := Candidates(f, fs);
      match FirstHolding(fs, dirs, f.pwmAttr)
      case None => (f, false)
      case Some(k) =>
        (PopulateRelatedPaths(f.(pwmPath := fs.Realpath(Join(dirs[k], f.pwmAttr)), hwmonPathHint := dirs[k]), dirs[k], fs), true)
  }

  /** The search loop of `resolve_fan_paths`: the first candidate directory holding `attr`. */
  method FindHolding(fs: Sysfs.Sysfs, dirs: seq<string>, attr: string) returns (found: Option<nat>)
    ensures found == FirstHolding(fs, dirs, attr)
  {
    var i := 0;
    while i < |dirs|
      invariant 0 <= i <= |dirs|
      invariant forall j :: 0 <= j < i ==> !fs.Exists(Join(dirs[j], attr))
    {
      if fs.Exists(Join(dirs[i], attr)) {
        FirstHoldingAt(fs, dirs, attr, i);
        return Some(i);
      }
      i := i + 1;
    }
    FirstHoldingNone(fs, dirs, attr);
    return None;
  }

  /** `resolve_fan_paths`. */
  method ResolveFanPaths(fan: Fan, fs: Sysfs.Sysfs) returns (fan': Fan, ok: bool)
    ensures fan' == ResolveSpec(fan, fs).0 && ok == ResolveSpec(fan, fs).1
  {
    fan' := EnsureFanMetadata(fan);
    if fan'.pwmPath != "" && fs.Exists(fan'.pwmPath) {
      var hwmonDir := fs.Realpath(Dirname(fan'.pwmPath));
      fan' := fan'.(hwmonPathHint := hwmonDir);
      fan' := PopulateRelatedPaths(fan', hwmonDir, fs);
      return fan', true;
    }
    if fan'.pwmAttr == "" {
      return fan', false;
    }
    var dirs := CandidateDirectories(fan', fs);
    var found := FindHolding(fs, dirs, fan'.pwmAttr);
    if found.None? {
      return fan', false;
    }
    var k := found.value;
    var candidate := Join(dirs[k], fan'.pwmAttr);
    fan' := fan'.(pwmPath := fs.Realpath(candidate), hwmonPathHint := dirs[k]);
    fan' := PopulateRelatedPaths(fan', dirs[k], fs);
    ok := true;
  }

  lemma FirstHoldingAt(fs: Sysfs.Sysfs, dirs: seq<string>, attr: string, i: nat)
    requires i < |dirs| && fs.Exists(Join(dirs[i], attr))
    requires forall j :: 0 <= j < i ==> !fs.Exists(Join(dirs[j], attr))
    ensures FirstHolding(fs, dirs, attr) == Some(i)
  {
    var r := FirstHolding(fs, dirs, attr);
    assert r.Some?;
  }

  lemma FirstHoldingNone(fs: Sysfs.Sysfs, dirs: seq<string>, attr: string)
    requires forall j :: 0 <= j < |dirs| ==> !fs.Exists(Join(dirs[j], attr))
    ensures FirstHolding(fs, dirs, attr) == None
  {
  }

  /** The outcomes of `resolve_fan_paths`: a configured pwm path that exists is kept, with the
      hint refreshed to its directory; without a pwm attribute nothing can be found; otherwise
      the first candidate directory holding the attribute wins and the pwm path becomes that
      attribute's real path. Whatever the outcome, the attribute names are filled in. */
  lemma ResolveOutcomes(fan: Fan, fs: Sysfs.Sysfs)
    ensures var f := EnsureFanMetadata(fan);
      var (r, ok) := ResolveSpec(fan, fs);
      && r.pwmAttr == f.pwmAttr && r.enableAttr == f.enableAttr && r.rpmAttr == f.rpmAttr
      && r.name == fan.name && r.role == fan.role
      && (f.pwmPath != "" && fs.Exists(f.pwmPath) ==>
            ok && r.pwmPath == f.pwmPath && r.hwmonPathHint == fs.Realpath(Dirname(f.pwmPath)))
      && (!(f.pwmPath != "" && fs.Exists(f.pwmPath)) ==>
            && (f.pwmAttr == "" ==> !ok && r == f)
            && (f.pwmAttr != "" ==>
                  (ok <==> exists i :: 0 <= i < |Candidates(f, fs)| && fs.Exists(Join(Candidates(f, fs)[i], f.pwmAttr)))
                  && (ok ==> exists i :: 0 <= i < |Candidates(f, fs)|
                               && r.pwmPath == fs.Realpath(Join(Candidates(f, fs)[i], f.pwmAttr))
                               && r.hwmonPathHint == Candidates(f, fs)[i]
                               && fs.Exists(Join(Candidates(f, fs)[i], f.pwmAttr))
                               && forall j :: 0 <= j < i ==> !fs.Exists(Join(Candidates(f, fs)[j], f.pwmAttr)))))
  {
    var f := EnsureFanMetadata(fan);
    if !(f.pwmPath != "" && fs.Exists(f.pwmPath)) && f.pwmAttr != "" {
      var dirs := Candidates(f, fs);
      var k := FirstHolding(fs, dirs, f.pwmAttr);
      if k.Some? {
        var g := f.(pwmPath := fs.Realpath(Join(dirs[k.value], f.pwmAttr)), hwmonPathHint := dirs[k.value]);
        PopulateRelatedPathsKeeps(g, dirs[k.value], fs);
      }
    } else if f.pwmPath != "" && fs.Exists(f.pwmPath) {
      var hw := fs.Realpath(Dirname(f.pwmPath));
      PopulateRelatedPathsKeeps(f.(hwmonPathHint := hw), hw, fs);
    }
  }

  /** Each fan of `fans` as `resolve_fan_paths` leaves it, in order. */
  function ResolvedFans(fans: seq<Fan>, fs: Sysfs.Sysfs): seq<Fan>
    reads fs
  {
    if |fans| == 0 then [] else ResolvedFans(fans[..|fans| - 1], fs) + [ResolveSpec(fans[|fans| - 1], fs).0]
  }

  /** Whether `resolve_fan_paths` succeeds for every one of `fans`. */
  predicate AllResolve(fans: seq<Fan>, fs: Sysfs.Sysfs)
    reads fs
  {
    |fans| == 0 || (AllResolve(fans[..|fans| - 1], fs) && ResolveSpec(fans[|fans| - 1], fs).1)
  }

  lemma {:induction false} ResolvedFansLength(fans: seq<Fan>, fs: Sysfs.Sysfs)
    ensures |ResolvedFans(fans, fs)| == |fans|
  {
    if |fans| > 0 {
      ResolvedFansLength(fans[..|fans| - 1], fs);
    }
  }

  lemma {:induction false} ResolvedFansAt(fans: seq<Fan>, fs: Sysfs.Sysfs, i: nat)
    requires i < |fans|
    ensures |ResolvedFans(fans, fs)| == |fans| && ResolvedFans(fans, fs)[i] == ResolveSpec(fans[i], fs).0
  {
    ResolvedFansLength(fans, fs);
    if i < |fans| - 1 {
      ResolvedFansAt(fans[..|fans| - 1], fs, i);
    }
  }

  lemma {:induction false} AllResolveAt(fans: seq<Fan>, fs: Sysfs.Sysfs, i: nat)
    requires i < |fans| && AllResolve(fans, fs)
    ensures ResolveSpec(fans[i], fs).1
  {
    if i < |fans| - 1 {
      AllResolveAt(fans[..|fans| - 1], fs, i);
    }
  }

  lemma {:induction false} AllResolveFails(fans: seq<Fan>, fs: Sysfs.Sysfs) returns (i: nat)
    requires !AllResolve(fans, fs)
    ensures i < |fans| && !ResolveSpec(fans[i], fs).1
  {
    var init := fans[..|fans| - 1];
    if AllResolve(init, fs) {
      i := |fans| - 1;
    } else {
      i := AllResolveFails(init, fs);
    }
  }

  /** Resolving a list resolves each fan on its own, and succeeds exactly when every fan
      resolves: one failure does not stop the others. */
  lemma ResolvedFansEach(fans: seq<Fan>, fs: Sysfs.Sysfs)
    ensures |ResolvedFans(fans, fs)| == |fans|
    ensures forall i :: 0 <= i < |fans| ==> ResolvedFans(fans, fs)[i] == ResolveSpec(fans[i], fs).0
    ensures AllResolve(fans, fs) <==> forall i :: 0 <= i < |fans| ==> ResolveSpec(fans[i], fs).1
  {
    ResolvedFansLength(fans, fs);
    forall i | 0 <= i < |fans| ensures ResolvedFans(fans, fs)[i] == ResolveSpec(fans[i], fs).0 {
      ResolvedFansAt(fans, fs, i);
    }
    if AllResolve(fans, fs) {
      forall i | 0 <= i < |fans| ensures ResolveSpec(fans[i], fs).1 {
        AllResolveAt(fans, fs, i);
      }
    } else {
      var i := AllResolveFails(fans, fs);
    }
  }

  /** `resolve_all_fans`: every fan is resolved, even after one fails, and the result is true
      exactly when all of them resolved. */
  method ResolveAllFans(fans: seq<Fan>, fs: Sysfs.Sysfs) returns (resolved: seq<Fan>, success: bool)
    ensures resolved == ResolvedFans(fans, fs)
    ensures success == AllResolve(fans, fs)
  {
    success := true;
    resolved := [];
    for i := 0 to |fans|
      invariant resolved == ResolvedFans(fans[..i], fs)
      invariant success == AllResolve(fans[..i], fs)
    {
      assert fans[..i + 1][..i] == fans[..i];
      var f, ok := ResolveFanPaths(fans[i], fs);
      resolved := resolved + [f];
      if !ok {
        success := false;
      }
    }
    assert fans[..|fans|] == fans;
  }
}
