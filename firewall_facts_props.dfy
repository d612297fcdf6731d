/** Properties of the firewall_facts decision table that relate several
    calls or several hosts. */
module FirewallFactsProps {
  import opened Host
  import opened FirewallFacts

  // ---------------------------------------------------------------------------
  // Linux: priority order and short-circuit
  // ---------------------------------------------------------------------------

  /** Two hosts give the same systemctl answers for every service in `names`. */
  predicate SameServices(m1: Machine, m2: Machine, names: seq<string>)
  {
    forall j :: 0 <= j < |names| ==>
      m1.activeRc(names[j]) == m2.activeRc(names[j])
      && m1.enabledRc(names[j]) == m2.enabledRc(names[j])
  }

  /** The search for the first candidate `cands[k]` returns it after asking
      both questions of each candidate before it, in order, and then what
      `detect_service` asks of `cands[k]`: later candidates are never queried. */
  lemma {:induction false} FirstServiceStopsAt(m: Machine, cands: seq<string>, k: int)
    requires FirstPresentAt(m, cands, k)
    ensures FirstService(m, cands).value == Some(cands[k])
    ensures FirstService(m, cands).probes == BothQueries(cands[..k]) + DetectService(m, cands[k]).probes
    ensures ServiceProbesOf(FirstService(m, cands).probes, cands[..k + 1])
  {
    var r := FirstService(m, cands);
    assert r.value.Some?;
    var k' :| FoundAt(m, cands, k', r.probes) && cands[k'] == r.value.value;
    assert k' == k;
    BothQueriesAbout(cands[..k]);
    var d := DetectService(m, cands[k]);
    forall p | p in BothQueries(cands[..k]) + d.probes
      ensures (p.IsActive? || p.IsEnabled?) && p.service in cands[..k + 1]
    {
      if p in d.probes {
        assert p.service == cands[..k + 1][k];
      } else {
        var i :| 0 <= i < k && p.service == cands[..k][i];
        assert p.service == cands[..k + 1][i];
      }
    }
  }

  /** The trace of a search that passes over `names` asks only about `names`. */
  lemma {:induction false} BothQueriesAbout(names: seq<string>)
    ensures ServiceProbesOf(BothQueries(names), names)
  {
    if names != [] {
      BothQueriesAbout(names[1..]);
      forall p | p in BothQueries(names)
        ensures (p.IsActive? || p.IsEnabled?) && p.service in names
      {
        if p !in [IsActive(names[0]), IsEnabled(names[0])] {
          assert p in BothQueries(names[1..]);
          assert p.service in names[1..];
        }
      }
    }
  }

  /** Entry `2j` of the trace is `is-active names[j]` and entry `2j + 1` is
      `is-enabled names[j]`. */
  lemma {:induction false} BothQueriesAt(names: seq<string>, j: int)
    requires 0 <= j < |names|
    ensures BothQueries(names)[2 * j] == IsActive(names[j])
    ensures BothQueries(names)[2 * j + 1] == IsEnabled(names[j])
  {
    if j > 0 {
      BothQueriesAt(names[1..], j - 1);
    }
  }

  /** Once `cands[k]` is the first present candidate, what the host says about
      later candidates changes neither the answer nor the probes issued. */
  lemma {:induction false} FirstServiceIgnoresLater(m1: Machine, m2: Machine, cands: seq<string>, k: int)
    requires FirstPresentAt(m1, cands, k)
    requires SameServices(m1, m2, cands[..k + 1])
    ensures FirstService(m1, cands) == FirstService(m2, cands)
  {
    assert cands[..k + 1][0] == cands[0];
    assert DetectService(m1, cands[0]) == DetectService(m2, cands[0]);
    if k > 0 {
      assert forall j :: 1 <= j < |cands| ==> cands[j] == cands[1..][j - 1];
      assert FirstPresentAt(m1, cands[1..], k - 1);
      assert cands[1..][..k] == cands[..k + 1][1..];
      FirstServiceIgnoresLater(m1, m2, cands[1..], k - 1);
    }
  }

  /** When no candidate is present, every candidate is asked both questions, in order. */
  lemma {:induction false} FirstServiceNoneFound(m: Machine, cands: seq<string>)
    requires forall j :: 0 <= j < |cands| ==> !ServicePresent(m, cands[j])
    ensures FirstService(m, cands) == Run(None, BothQueries(cands))
  {
    if cands != [] {
      assert !ServicePresent(m, cands[0]);
      FirstServiceNoneFound(m, cands[1..]);
    }
  }

  /** Linux reports the first present service among firewalld, nftables,
      iptables, shorewall: both questions for each absent one before it, in
      order, then `detect_service` on it, and no query after it. */
  lemma LinuxPriority(m: Machine, k: int)
    requires FirstPresentAt(m, LinuxCandidates, k)
    ensures LinuxFw(m).value == LinuxCandidates[k]
    ensures LinuxFw(m).probes == BothQueries(LinuxCandidates[..k]) + DetectService(m, LinuxCandidates[k]).probes
    ensures ServiceProbesOf(LinuxFw(m).probes, LinuxCandidates[..k + 1])
  {
    FirstServiceStopsAt(m, LinuxCandidates, k);
  }

  /** Linux with a running firewalld: `firewalld`, after a single `is-active` query. */
  lemma LinuxFirewalldActive(m: Machine)
    requires m.activeRc("firewalld") == 0
    ensures LinuxFw(m) == Run("firewalld", [IsActive("firewalld")])
  {
  }

  /** Linux with no candidate running or enabled: the `iptables` default,
      after all eight queries. */
  lemma LinuxDefault(m: Machine)
    requires forall j :: 0 <= j < |LinuxCandidates| ==> !ServicePresent(m, LinuxCandidates[j])
    ensures LinuxFw(m).value == "iptables"
    ensures LinuxFw(m).probes ==
              [IsActive("firewalld"), IsEnabled("firewalld"),
               IsActive("nftables"), IsEnabled("nftables"),
               IsActive("iptables"), IsEnabled("iptables"),
               IsActive("shorewall"), IsEnabled("shorewall")]
  {
    FirstServiceNoneFound(m, LinuxCandidates);
    LinuxQueriesInOrder();
  }

  /** The eight queries, in order, that a search over all Linux candidates issues. */
  lemma LinuxQueriesInOrder()
    ensures BothQueries(LinuxCandidates) ==
              [IsActive("firewalld"), IsEnabled("firewalld"),
               IsActive("nftables"), IsEnabled("nftables"),
               IsActive("iptables"), IsEnabled("iptables"),
               IsActive("shorewall"), IsEnabled("shorewall")]
  {
  }

  /** Linux: no candidate after the first present one affects the result. */
  lemma LinuxIgnoresLater(m1: Machine, m2: Machine, k: int)
    requires FirstPresentAt(m1, LinuxCandidates, k)
    requires SameServices(m1, m2, LinuxCandidates[..k + 1])
    ensures LinuxFw(m1) == LinuxFw(m2)
  {
    FirstServiceIgnoresLater(m1, m2, LinuxCandidates, k);
  }

  // ---------------------------------------------------------------------------
  // rc.conf: a literal prefix test
  // ---------------------------------------------------------------------------

  /** Appending a line adds a flag exactly when that line starts with it. */
  lemma HasFlagAppend(lines: seq<string>, line: string, name: string)
    ensures HasFlag(lines + [line], name) <==> HasFlag(lines, name) || Flag(name) <= line
  {
    if HasFlag(lines + [line], name) && !(Flag(name) <= line) {
      var i :| 0 <= i < |lines + [line]| && Flag(name) <= (lines + [line])[i];
      assert i < |lines| && (lines + [line])[i] == lines[i];
    }
    if HasFlag(lines, name) {
      var i :| 0 <= i < |lines| && Flag(name) <= lines[i];
      assert (lines + [line])[i] == lines[i];
    }
    if Flag(name) <= line {
      assert (lines + [line])[|lines|] == line;
    }
  }

  /** A one-line file whose line differs from the flag text at position `i`
      does not set the flag. */
  lemma DiffersAt(line: string, name: string, i: nat)
    requires i < |Flag(name)| && i < |line| && line[i] != Flag(name)[i]
    ensures !HasFlag([line], name)
  {
  }

  /** Lines that differ from `pf_enable="YES"` in case, spacing, quoting or
      a leading comment mark do not switch pf on; trailing text does not stop it. */
  lemma RcFlagIsLiteral()
    ensures !HasFlag(["pf_enable=\"yes\"\n"], "pf_enable")
    ensures !HasFlag(["PF_ENABLE=\"YES\"\n"], "pf_enable")
    ensures !HasFlag(["pf_enable = \"YES\"\n"], "pf_enable")
    ensures !HasFlag([" pf_enable=\"YES\"\n"], "pf_enable")
    ensures !HasFlag(["#pf_enable=\"YES\"\n"], "pf_enable")
    ensures !HasFlag(["pf_enable=YES\n"], "pf_enable")
    ensures HasFlag(["pf_enable=\"YES\" # packet filter\n"], "pf_enable")
    ensures !HasFlag([], "pf_enable")
  {
    DiffersAt("pf_enable=\"yes\"\n", "pf_enable", 11);
    DiffersAt("PF_ENABLE=\"YES\"\n", "pf_enable", 0);
    DiffersAt("pf_enable = \"YES\"\n", "pf_enable", 9);
    DiffersAt(" pf_enable=\"YES\"\n", "pf_enable", 0);
    DiffersAt("#pf_enable=\"YES\"\n", "pf_enable", 0);
    DiffersAt("pf_enable=YES\n", "pf_enable", 10);
    var on := "pf_enable=\"YES\" # packet filter\n";
    assert on[..|Flag("pf_enable")|] == Flag("pf_enable");
    assert [on][0] == on;
  }

  // ---------------------------------------------------------------------------
  // FreeBSD
  // ---------------------------------------------------------------------------

  /** A `firewall_enable="YES"` line never changes what FreeBSD reports:
      both of the last two branches give `ipfw`. */
  lemma FreeBsdIgnoresFirewallEnable(m: Machine, lines: seq<string>, line: string)
    requires Flag("firewall_enable") <= line
    ensures FreeBsdFw(m.(rcConf := Some(lines + [line]))).value
            == FreeBsdFw(m.(rcConf := Some(lines))).value
  {
    assert line[0] == 'f';
    assert !(Flag("pf_enable") <= line) by { assert Flag("pf_enable")[0] == 'p'; }
    assert !(Flag("ipfilter_enable") <= line) by { assert Flag("ipfilter_enable")[0] == 'i'; }
    HasFlagAppend(lines, line, "pf_enable");
    HasFlagAppend(lines, line, "ipfilter_enable");
  }

  /** FreeBSD on three rc.conf files: only `ipfilter_enable`, empty, and only
      `firewall_enable`; and a missing rc.conf raises. */
  lemma FreeBsdExamples(m: Machine)
    ensures FreeBsdFw(m.(rcConf := Some(["ipfilter_enable=\"YES\"\n"]))).value == Ok("ipfilter")
    ensures FreeBsdFw(m.(rcConf := Some([]))).value == Ok("ipfw")
    ensures FreeBsdFw(m.(rcConf := Some(["firewall_enable=\"YES\"\n"]))).value == Ok("ipfw")
    ensures FreeBsdFw(m.(rcConf := None)).value == Err(FileNotFound(RcConfPath))
  {
    var ipf := ["ipfilter_enable=\"YES\"\n"];
    assert Flag("ipfilter_enable") <= ipf[0];
    assert !(Flag("pf_enable") <= ipf[0]) by { assert ipf[0][1] != Flag("pf_enable")[1]; }
    var fwe := ["firewall_enable=\"YES\"\n"];
    assert !(Flag("pf_enable") <= fwe[0]) by { assert fwe[0][0] != Flag("pf_enable")[0]; }
    assert !(Flag("ipfilter_enable") <= fwe[0]) by { assert fwe[0][0] != Flag("ipfilter_enable")[0]; }
  }

  // ---------------------------------------------------------------------------
  // NetBSD
  // ---------------------------------------------------------------------------

  /** NetBSD as written never reports `npf` or `ipfilter`, and its outcome
      depends on nothing but whether `/dev/pf` exists. */
  lemma NetBsdOnlyPf(m1: Machine, m2: Machine)
    requires "pf" in m1.devices <==> "pf" in m2.devices
    ensures NetBsdFw(m1).value != Ok("npf") && NetBsdFw(m1).value != Ok("ipfilter")
    ensures NetBsdFw(m1) == NetBsdFw(m2)
  {
  }

  /** A stat that only tells whether a node exists, answering with an empty
      tuple when it does not (which `os.stat` never does). */
  function ExistenceStat(m: Machine): (stat: Stat)
    ensures forall name :: stat(name).Ok? && (Truthy(stat(name).value) <==> name in m.devices)
  {
    name => Ok(StatResult(if name in m.devices then StatFieldCount else 0))
  }

  /** With an existence test in place of `os.stat`, the same procedure would
      follow the whole table: `pf`, then `npf`, then the `ipfilter` flag,
      then the `pf` default. */
  lemma NetBsdWithExistenceTest(m: Machine)
    ensures NetBsdProcedure(m, ExistenceStat(m)).value ==
              if "pf" in m.devices then Ok("pf")
              else if "npf" in m.devices then Ok("npf")
              else match m.rcConf
                case None => Err(FileNotFound(RcConfPath))
                case Some(lines) => Ok(if HasFlag(lines, "ipfilter") then "ipfilter" else "pf")
  {
  }

  // ---------------------------------------------------------------------------
  // Dispatch
  // ---------------------------------------------------------------------------

  /** `main` reports, under the `firewall` key and with `changed=False`,
      exactly what the platform's procedure found, and issues exactly its probes. */
  lemma RunModuleReportsProcedure(platform: string, m: Machine)
    requires platform in FwVtable
    ensures RunModule(platform, m).probes == Invoke(FwVtable[platform], m).probes
    ensures match Invoke(FwVtable[platform], m).value
      case Ok(fw) => RunModule(platform, m).value == ExitJson(false, map["firewall" := fw])
      case Err(e) => RunModule(platform, m).value == Traceback(e)
  {
  }
}
