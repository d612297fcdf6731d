/** The firewall_facts Ansible module: a per-platform decision table that
    names the active firewall backend of a host. */
module FirewallFacts {
  import opened Host

  /** Every name the module can report as the `firewall` fact. */
  const FirewallKinds: set<string> :=
    {"firewalld", "nftables", "iptables", "shorewall", "pf", "ipfilter", "ipfw", "npf"}

  // ---------------------------------------------------------------------------
  // Service probe (Linux)
  // ---------------------------------------------------------------------------

  /** A systemd service counts as present when it is running or enabled at boot. */
  predicate ServicePresent(m: Machine, service: string)
  {
    m.activeRc(service) == 0 || m.enabledRc(service) == 0
  }

  /** `detect_service`: ask `is-active`, and only if that fails ask `is-enabled`. */
  function DetectService(m: Machine, service: string): (r: Run<bool>)
    ensures r.value <==> ServicePresent(m, service)
    ensures 1 <= |r.probes| <= 2 && r.probes[0] == IsActive(service)
    ensures |r.probes| == 2 <==> m.activeRc(service) != 0
    ensures |r.probes| == 2 ==> r.probes[1] == IsEnabled(service)
  {
    if m.activeRc(service) == 0 then Run(true, [IsActive(service)])
    else Run(m.enabledRc(service) == 0, [IsActive(service), IsEnabled(service)])
  }

  // ---------------------------------------------------------------------------
  // rc.conf flag check (BSD)
  // ---------------------------------------------------------------------------

  /** The literal text that switches a service on in rc.conf. */
  function Flag(name: string): string
  {
    name + "=\"YES\""
  }

  /** Some line of rc.conf begins with exactly `name="YES"`.
      (`<=` on sequences is the prefix test, as Python's `str.startswith`.) */
  predicate HasFlag(lines: seq<string>, name: string)
  {
    exists i :: 0 <= i < |lines| && Flag(name) <= lines[i]
  }

  /** The scan over the lines, stopping at the first one with the prefix. */
  function AnyLineStartsWith(lines: seq<string>, prefix: string): (b: bool)
    ensures b <==> exists i :: 0 <= i < |lines| && prefix <= lines[i]
  {
    if lines == [] then false
    else if prefix <= lines[0] then true
    else AnyLineStartsWith(lines[1..], prefix)
  }

  /** `detect_rcconf`: open rc.conf (raising when it is missing) and look for the flag. */
  function DetectRcConf(m: Machine, name: string): (r: Run<Result<bool>>)
    ensures r.probes == [OpenRcConf]
    ensures m.rcConf.None? ==> r.value == Err(FileNotFound(RcConfPath))
    ensures m.rcConf.Some? ==> r.value == Ok(HasFlag(m.rcConf.value, name))
  {
    match ReadRcConf(m)
    case Err(e) => Run(Err(e), [OpenRcConf])
    case Ok(lines) => Run(Ok(AnyLineStartsWith(lines, Flag(name))), [OpenRcConf])
  }

  // ---------------------------------------------------------------------------
  // Linux
  // ---------------------------------------------------------------------------

  const LinuxCandidates: seq<string> := ["firewalld", "nftables", "iptables", "shorewall"]

  /** `cands[k]` is the first candidate whose service is present. */
  predicate FirstPresentAt(m: Machine, cands: seq<string>, k: int)
  {
    0 <= k < |cands| && ServicePresent(m, cands[k])
    && forall j :: 0 <= j < k ==> !ServicePresent(m, cands[j])
  }

  /** All probes of a trace are systemctl queries about services in `names`. */
  predicate ServiceProbesOf(probes: seq<Probe>, names: seq<string>)
  {
    forall p :: p in probes ==> (p.IsActive? || p.IsEnabled?) && p.service in names
  }

  /** The probes of a search that passes over `names`: `is-active` then
      `is-enabled` for each of them, in order. */
  function BothQueries(names: seq<string>): (probes: seq<Probe>)
    ensures |probes| == 2 * |names|
  {
    if names == [] then []
    else [IsActive(names[0]), IsEnabled(names[0])] + BothQueries(names[1..])
  }

  /** `cands[k]` is the first present candidate, and `probes` is the trace of
      reaching it: both queries for each candidate before it, in order, then
      what `detect_service` asks of `cands[k]`. */
  predicate FoundAt(m: Machine, cands: seq<string>, k: int, probes: seq<Probe>)
  {
    FirstPresentAt(m, cands, k)
    && probes == BothQueries(cands[..k]) + DetectService(m, cands[k]).probes
  }

  /** The `for i in (...)` loop of `detect_linux_fw`: the first candidate
      detected. Each absent candidate before it is asked both questions, and
      the match is asked what `detect_service` asks; nothing after it is asked. */
  function FirstService(m: Machine, cands: seq<string>): (r: Run<Option<string>>)
    ensures r.value.None? <==> forall j :: 0 <= j < |cands| ==> !ServicePresent(m, cands[j])
    ensures r.value.None? ==> r.probes == BothQueries(cands)
    ensures r.value.Some? ==> exists k :: FoundAt(m, cands, k, r.probes) && cands[k] == r.value.value
    ensures ServiceProbesOf(r.probes, cands)
    decreases |cands|
  {
    if cands == [] then Run(None, [])
    else
      var d := DetectService(m, cands[0]);
      if d.value then
        assert cands[..0] == [] && FoundAt(m, cands, 0, d.probes);
        Run(Some(cands[0]), d.probes)
      else
        var rest := FirstService(m, cands[1..]);
        var r := Run(rest.value, d.probes + rest.probes);
        FirstServiceStep(m, cands, rest, r);
        r
  }

  /** Passing over an absent first candidate: what the search of the other
      candidates promises carries over to the search of all of them, with
      that candidate's two queries in front. */
  lemma FirstServiceStep(m: Machine, cands: seq<string>, rest: Run<Option<string>>, r: Run<Option<string>>)
    requires cands != [] && !ServicePresent(m, cands[0])
    requires rest.value.None? <==> forall j :: 0 <= j < |cands[1..]| ==> !ServicePresent(m, cands[1..][j])
    requires rest.value.None? ==> rest.probes == BothQueries(cands[1..])
    requires rest.value.Some? ==> exists k :: FoundAt(m, cands[1..], k, rest.probes) && cands[1..][k] == rest.value.value
    requires ServiceProbesOf(rest.probes, cands[1..])
    requires r == Run(rest.value, DetectService(m, cands[0]).probes + rest.probes)
    ensures r.value.None? <==> forall j :: 0 <= j < |cands| ==> !ServicePresent(m, cands[j])
    ensures r.value.None? ==> r.probes == BothQueries(cands)
    ensures r.value.Some? ==> exists k :: FoundAt(m, cands, k, r.probes) && cands[k] == r.value.value
    ensures ServiceProbesOf(r.probes, cands)
  {
    assert forall j :: 1 <= j < |cands| ==> cands[j] == cands[1..][j - 1];
    if rest.value.Some? {
      var k :| FoundAt(m, cands[1..], k, rest.probes) && cands[1..][k] == rest.value.value;
      FoundAtShift(m, cands, k, rest.probes);
    }
    ServiceProbesShift(m, cands, rest.probes);
  }

  /** A match found among the other candidates is a match one index on. */
  lemma FoundAtShift(m: Machine, cands: seq<string>, k: int, probes: seq<Probe>)
    requires cands != [] && !ServicePresent(m, cands[0]) && FoundAt(m, cands[1..], k, probes)
    ensures FoundAt(m, cands, k + 1, DetectService(m, cands[0]).probes + probes)
    ensures cands[k + 1] == cands[1..][k]
  {
    assert forall j :: 1 <= j < |cands| ==> cands[j] == cands[1..][j - 1];
    assert cands[..k + 1][1..] == cands[1..][..k];
  }

  /** The queries about the first candidate, then queries about the others,
      are queries about the candidates. */
  lemma ServiceProbesShift(m: Machine, cands: seq<string>, probes: seq<Probe>)
    requires cands != [] && ServiceProbesOf(probes, cands[1..])
    ensures ServiceProbesOf(DetectService(m, cands[0]).probes + probes, cands)
  {
    forall p | p in DetectService(m, cands[0]).probes + probes
      ensures (p.IsActive? || p.IsEnabled?) && p.service in cands
    {
      if p !in probes {
        assert p.service == cands[0];
      }
    }
  }

  /** `detect_linux_fw`: the first detected candidate, else `iptables`. */
  function LinuxFw(m: Machine): (r: Run<string>)
    ensures r.value in LinuxCandidates
    ensures ServiceProbesOf(r.probes, LinuxCandidates)
    ensures forall k :: FirstPresentAt(m, LinuxCandidates, k) ==>
              r.value == LinuxCandidates[k]
              && r.probes == BothQueries(LinuxCandidates[..k]) + DetectService(m, LinuxCandidates[k]).probes
    ensures (forall j :: 0 <= j < |LinuxCandidates| ==> !ServicePresent(m, LinuxCandidates[j]))
            ==> r == Run("iptables", BothQueries(LinuxCandidates))
  {
    var s := FirstService(m, LinuxCandidates);
    match s.value
    case Some(fw) => Run(fw, s.probes)
    case None => Run("iptables", s.probes)
  }

  // ---------------------------------------------------------------------------
  // FreeBSD
  // ---------------------------------------------------------------------------

  /** `names[k]` is the first name whose `<name>_enable` flag is set. */
  predicate FirstEnabledAt(lines: seq<string>, names: seq<string>, k: int)
  {
    0 <= k < |names| && HasFlag(lines, names[k] + "_enable")
    && forall j :: 0 <= j < k ==> !HasFlag(lines, names[j] + "_enable")
  }

  /** The `for i in [...]` loop of `detect_freebsd_fw`: rc.conf is opened once
      per name tried, and a missing file raises at the first attempt. */
  function FirstEnabled(m: Machine, names: seq<string>): (r: Run<Result<Option<string>>>)
    ensures forall p :: p in r.probes ==> p == OpenRcConf
    ensures m.rcConf.None? ==>
              r.value == (if names == [] then Ok(None) else Err(FileNotFound(RcConfPath)))
              && |r.probes| == (if names == [] then 0 else 1)
    ensures m.rcConf.Some? ==> r.value.Ok?
    ensures m.rcConf.Some? && r.value.value.None? ==>
              |r.probes| == |names|
              && forall j :: 0 <= j < |names| ==> !HasFlag(m.rcConf.value, names[j] + "_enable")
    ensures m.rcConf.Some? && r.value.value.Some? ==>
              exists k :: FirstEnabledAt(m.rcConf.value, names, k)
                && names[k] == r.value.value.value && |r.probes| == k + 1
    decreases |names|
  {
    if names == [] then Run(Ok(None), [])
    else
      var d := DetectRcConf(m, names[0] + "_enable");
      match d.value
      case Err(e) => Run(Err(e), d.probes)
      case Ok(true) =>
        assert FirstEnabledAt(m.rcConf.value, names, 0);
        Run(Ok(Some(names[0])), d.probes)
      case Ok(false) =>
        var rest := FirstEnabled(m, names[1..]);
        assert forall j :: 1 <= j < |names| ==> names[j] == names[1..][j - 1];
        assert rest.value.Ok? && rest.value.value.Some? ==>
                 exists k :: FirstEnabledAt(m.rcConf.value, names, k)
                   && names[k] == rest.value.value.value && |d.probes + rest.probes| == k + 1 by {
          if rest.value.Ok? && rest.value.value.Some? {
            var k :| FirstEnabledAt(m.rcConf.value, names[1..], k)
                     && names[1..][k] == rest.value.value.value && |rest.probes| == k + 1;
            assert FirstEnabledAt(m.rcConf.value, names, k + 1);
          }
        }
        Run(rest.value, d.probes + rest.probes)
  }

  /** `detect_freebsd_fw`: `pf` if `pf_enable="YES"`, else `ipfilter` if
      `ipfilter_enable="YES"`, else `ipfw` (whether or not `firewall_enable` is set). */
  function FreeBsdFw(m: Machine): (r: Run<Result<string>>)
    ensures forall p :: p in r.probes ==> p == OpenRcConf
    ensures match m.rcConf
      case None => r.value == Err(FileNotFound(RcConfPath)) && |r.probes| == 1
      case Some(lines) =>
        r.value == Ok(if HasFlag(lines, "pf_enable") then "pf"
                      else if HasFlag(lines, "ipfilter_enable") then "ipfilter"
                      else "ipfw")
        && |r.probes| == (if HasFlag(lines, "pf_enable") then 1
                          else if HasFlag(lines, "ipfilter_enable") then 2
                          else 3)
  {
    var names := ["pf", "ipfilter"];
    assert names[0] + "_enable" == "pf_enable" && names[1] + "_enable" == "ipfilter_enable";
    var first := FirstEnabled(m, names);
    match first.value
    case Err(e) => Run(Err(e), first.probes)
    case Ok(Some(fw)) => Run(Ok(fw), first.probes)
    case Ok(None) =>
      var fwe := DetectRcConf(m, "firewall_enable");
      match fwe.value
      case Err(e) => Run(Err(e), first.probes + fwe.probes)
      case Ok(true) => Run(Ok("ipfw"), first.probes + fwe.probes)
      case Ok(false) => Run(Ok("ipfw"), first.probes + fwe.probes)
  }

  // ---------------------------------------------------------------------------
  // OpenBSD
  // ---------------------------------------------------------------------------

  /** `detect_openbsd_fw`: OpenBSD has one firewall and nothing is probed. */
  function OpenBsdFw(m: Machine): (r: Run<Result<string>>)
    ensures r.value == Ok("pf") && r.probes == []
  {
    Run(Ok("pf"), [])
  }

  // ---------------------------------------------------------------------------
  // NetBSD
  // ---------------------------------------------------------------------------

  /** An `os.stat` as the NetBSD procedure sees it: a stat tuple or an exception. */
  type Stat = string -> Result<StatResult>

  /** The stat of `name` came back without raising and the tuple was falsy. */
  predicate StatFalsy(stat: Stat, name: string)
  {
    stat(name).Ok? && !Truthy(stat(name).value)
  }

  /** The device loop stops at index `k`: every earlier stat was falsy, and
      the stat at `k` (if any is left) raised or was truthy. */
  predicate StopsAt(stat: Stat, names: seq<string>, k: int)
  {
    0 <= k <= |names|
    && (forall j :: 0 <= j < k ==> StatFalsy(stat, names[j]))
    && (k < |names| ==> !StatFalsy(stat, names[k]))
  }

  /** `probes` is `os.stat` on `/dev/<names[j]>` for each `j < n`, in order. */
  predicate StatTrace(probes: seq<Probe>, names: seq<string>, n: int)
  {
    0 <= n <= |names| && |probes| == n
    && forall j :: 0 <= j < n ==> probes[j] == StatDev(DevPath(names[j]))
  }

  /** What the device loop yields when it stops at `k`. */
  function StopOutcome(stat: Stat, names: seq<string>, k: nat): Result<Option<string>>
    requires k <= |names|
  {
    if k == |names| then Ok(None)
    else if stat(names[k]).Err? then Err(stat(names[k]).error)
    else Ok(Some(names[k]))
  }

  /** A loop that passes a falsy first node stops one index later than on the rest. */
  lemma StopsAtShift(stat: Stat, names: seq<string>, k: nat)
    requires names != [] && StatFalsy(stat, names[0]) && StopsAt(stat, names[1..], k)
    ensures StopsAt(stat, names, k + 1)
    ensures StopOutcome(stat, names, k + 1) == StopOutcome(stat, names[1..], k)
  {
  }

  /** Prefixing the stat of the first node to a trace of the rest. */
  lemma StatTraceShift(probes: seq<Probe>, names: seq<string>, n: int)
    requires names != [] && StatTrace(probes, names[1..], n)
    ensures StatTrace([StatDev(DevPath(names[0]))] + probes, names, n + 1)
  {
  }

  /** The `for i in [...]` loop of `detect_netbsd_fw`: stat each device node
      and return the first whose stat result is truthy; an exception raised
      by a stat leaves the loop. */
  function FirstDevice(stat: Stat, names: seq<string>): (r: Run<Result<Option<string>>>)
    ensures exists k: nat :: StopsAt(stat, names, k)
              && StatTrace(r.probes, names, if k < |names| then k + 1 else k)
              && r.value == StopOutcome(stat, names, k)
    decreases |names|
  {
    if names == [] then
      assert StopsAt(stat, names, 0) && StatTrace([], names, 0);
      Run(Ok(None), [])
    else
      var here := [StatDev(DevPath(names[0]))];
      match stat(names[0])
      case Err(e) =>
        assert StopsAt(stat, names, 0) && StatTrace(here, names, 1);
        Run(Err(e), here)
      case Ok(s) =>
        if Truthy(s) then
          assert StopsAt(stat, names, 0) && StatTrace(here, names, 1);
          Run(Ok(Some(names[0])), here)
        else
          var rest := FirstDevice(stat, names[1..]);
          var k: nat :| StopsAt(stat, names[1..], k)
            && StatTrace(rest.probes, names[1..], if k < |names[1..]| then k + 1 else k)
            && rest.value == StopOutcome(stat, names[1..], k);
          StopsAtShift(stat, names, k);
          StatTraceShift(rest.probes, names, if k < |names[1..]| then k + 1 else k);
          Run(rest.value, here + rest.probes)
  }

  /** `detect_netbsd_fw` for a given `os.stat`: the first of `pf`, `npf`
      whose stat is truthy, else `ipfilter` if rc.conf has `ipfilter="YES"`
      (the key is `ipfilter`, not `ipfilter_enable`), else `pf`. */
  function NetBsdProcedure(m: Machine, stat: Stat): (r: Run<Result<string>>)
    ensures r.value.Ok? ==> r.value.value in {"pf", "npf", "ipfilter"}
    ensures !StatFalsy(stat, "pf") ==>
              r.probes == [StatDev(DevPath("pf"))]
              && r.value == (if stat("pf").Err? then Err(stat("pf").error) else Ok("pf"))
    ensures StatFalsy(stat, "pf") && !StatFalsy(stat, "npf") ==>
              r.probes == [StatDev(DevPath("pf")), StatDev(DevPath("npf"))]
              && r.value == (if stat("npf").Err? then Err(stat("npf").error) else Ok("npf"))
    ensures StatFalsy(stat, "pf") && StatFalsy(stat, "npf") ==>
              r.probes == [StatDev(DevPath("pf")), StatDev(DevPath("npf")), OpenRcConf]
              && r.value == match m.rcConf
                 case None => Err(FileNotFound(RcConfPath))
                 case Some(lines) => Ok(if HasFlag(lines, "ipfilter") then "ipfilter" else "pf")
  {
    var dev := FirstDevice(stat, ["pf", "npf"]);
    match dev.value
    case Err(e) => Run(Err(e), dev.probes)
    case Ok(Some(fw)) => Run(Ok(fw), dev.probes)
    case Ok(None) =>
      var ipf := DetectRcConf(m, "ipfilter");
      match ipf.value
      case Err(e) => Run(Err(e), dev.probes + ipf.probes)
      case Ok(true) => Run(Ok("ipfilter"), dev.probes + ipf.probes)
      case Ok(false) => Run(Ok("pf"), dev.probes + ipf.probes)
  }

  /** Python's `os.stat` on the node `/dev/<name>` of this host. */
  function OsStat(m: Machine): (stat: Stat)
    ensures forall name :: stat(name).Ok? <==> name in m.devices
    ensures forall name :: stat(name).Err? ==> stat(name).error == FileNotFound(DevPath(name))
    ensures forall name :: stat(name).Err? || Truthy(stat(name).value)
  {
    name => StatDevice(m, name)
  }

  /** `detect_netbsd_fw` as written: since `os.stat` either raises or returns
      a truthy tuple, only `/dev/pf` is ever looked at; the result is `pf`
      when it exists and the escaped exception when it does not. */
  function NetBsdFw(m: Machine): (r: Run<Result<string>>)
    ensures r.probes == [StatDev(DevPath("pf"))]
    ensures r.value == if "pf" in m.devices then Ok("pf") else Err(FileNotFound(DevPath("pf")))
  {
    NetBsdProcedure(m, OsStat(m))
  }

  // ---------------------------------------------------------------------------
  // Dispatch and main
  // ---------------------------------------------------------------------------

  /** The detection procedures `FW_VTABLE` can refer to. */
  datatype Procedure = DetectLinux | DetectFreeBsd | DetectNetBsd | DetectOpenBsd

  /** `FW_VTABLE`: platform name, as `get_platform()` reports it, to its procedure. */
  const FwVtable: map<string, Procedure> :=
    map["Linux" := DetectLinux, "FreeBSD" := DetectFreeBsd,
        "NetBSD" := DetectNetBsd, "OpenBSD" := DetectOpenBsd]

  /** Calling the procedure found in the table. */
  function Invoke(p: Procedure, m: Machine): (r: Run<Result<string>>)
    ensures r.value.Ok? ==> r.value.value in FirewallKinds
    ensures p.DetectLinux? || p.DetectOpenBsd? ==> r.value.Ok?
    ensures p.DetectLinux? ==> r == Run(Ok(LinuxFw(m).value), LinuxFw(m).probes)
    ensures p.DetectFreeBsd? ==> r == FreeBsdFw(m)
    ensures p.DetectNetBsd? ==> r == NetBsdFw(m)
    ensures p.DetectOpenBsd? ==> r == OpenBsdFw(m)
  {
    match p
    case DetectLinux =>
      var l := LinuxFw(m);
      Run(Ok(l.value), l.probes)
    case DetectFreeBsd => FreeBsdFw(m)
    case DetectNetBsd => NetBsdFw(m)
    case DetectOpenBsd => OpenBsdFw(m)
  }

  /** How the module run ends: `exit_json`, `fail_json`, or an uncaught
      exception (which Ansible reports as a module failure with a traceback). */
  datatype ModuleExit =
    | ExitJson(changed: bool, facts: map<string, string>)
    | FailJson
    | Traceback(error: OsError)

  /** `main`: look the platform up in `FW_VTABLE`; report the firewall fact
      unchanged, or fail when the platform has no entry. */
  function RunModule(platform: string, m: Machine): (r: Run<ModuleExit>)
    ensures platform !in FwVtable ==> r.value == FailJson && r.probes == []
    ensures platform in FwVtable ==> !r.value.FailJson?
    ensures platform == "Linux" ==>
              r == Run(ExitJson(false, map["firewall" := LinuxFw(m).value]), LinuxFw(m).probes)
    ensures platform == "FreeBSD" ==>
              r.probes == FreeBsdFw(m).probes
              && r.value == match FreeBsdFw(m).value
                 case Ok(fw) => ExitJson(false, map["firewall" := fw])
                 case Err(e) => Traceback(e)
    ensures platform == "NetBSD" ==>
              r.probes == NetBsdFw(m).probes
              && r.value == match NetBsdFw(m).value
                 case Ok(fw) => ExitJson(false, map["firewall" := fw])
                 case Err(e) => Traceback(e)
    ensures platform == "OpenBSD" ==> r == Run(ExitJson(false, map["firewall" := "pf"]), [])
    ensures r.value.ExitJson? ==>
              !r.value.changed && r.value.facts.Keys == {"firewall"}
              && r.value.facts["firewall"] in FirewallKinds
    ensures r.value.ExitJson? <==>
              platform in {"Linux", "OpenBSD"}
              || (platform == "FreeBSD" && m.rcConf.Some?)
              || (platform == "NetBSD" && "pf" in m.devices)
    ensures r.value.Traceback? ==>
              r.value.error in {FileNotFound(RcConfPath), FileNotFound(DevPath("pf"))}
  {
    if platform in FwVtable then
      var proc := FwVtable[platform];
      assert proc == (if platform == "Linux" then DetectLinux
                      else if platform == "FreeBSD" then DetectFreeBsd
                      else if platform == "NetBSD" then DetectNetBsd
                      else DetectOpenBsd);
      var f := Invoke(proc, m);
      match f.value
      case Ok(fw) => Run(ExitJson(false, map["firewall" := fw]), f.probes)
      case Err(e) => Run(Traceback(e), f.probes)
    else Run(FailJson, [])
  }
}
