# firewall_facts, modelled in Dafny

A model of the `firewall_facts` Ansible module (`library/firewall_facts.py`).
The module works out which firewall backend a host uses and reports it as the
`firewall` fact. It looks the platform name up in `FW_VTABLE` and runs that
platform's detector:

- **Linux.** The first of `firewalld`, `nftables`, `iptables`, `shorewall`
  that systemd reports as active or enabled. If none is, the answer is `iptables`.
- **FreeBSD.** `pf` or `ipfilter`, whichever has its `<name>_enable="YES"`
  line in `/etc/rc.conf` (pf wins if both are there). Otherwise `ipfw`.
- **OpenBSD.** Always `pf`.
- **NetBSD.** The first of `/dev/pf` and `/dev/npf` whose `os.stat` result is
  truthy. Otherwise `ipfilter` if rc.conf sets `ipfilter="YES"`, else `pf`.

The model is pure. Each host probe becomes part of a `Machine` value:

- the exit code of `systemctl is-active` and of `systemctl is-enabled` for each service;
- the line list of `/etc/rc.conf`, or `None` when the file does not exist;
- the set of names present under `/dev`.

Every detector returns a `Run`: its result plus the list of probes it issued,
in order. That list is what lets the model state the short-circuiting: a
later candidate is never probed.

Files:

- `host.dfy` (module `Host`): the host observations, Python's `open` and
  `os.stat` on them, and `Result`/`Option`.
- `firewall_facts.dfy` (module `FirewallFacts`): the detectors, `FW_VTABLE`
  and `main`. `main` is modelled as `RunModule`.
- `firewall_facts_props.dfy` (module `FirewallFactsProps`): lemmas that relate
  several calls or several hosts.

Three points of the code deserve note:

- **rc.conf missing.** `open('/etc/rc.conf')` at line 55 has no guard, so on
  a host without the file the exception escapes the module. The model
  reports it as `Traceback(FileNotFound("/etc/rc.conf"))`.
- **NetBSD.** The NetBSD loop (lines 85-87) uses `os.stat`'s result as an
  existence test. But `os.stat` either raises or returns a ten-field tuple,
  which is always truthy. So NetBSD reports `pf` when `/dev/pf` exists and
  fails with the escaped exception when it does not. `npf` and `ipfilter`
  are never reported (`NetBsdFw`, `NetBsdOnlyPf`). The procedure takes the
  stat function as a parameter (`NetBsdProcedure`).
  `NetBsdWithExistenceTest` shows the whole table of lines 85-90 being
  followed when that function is a plain existence test.
- **NetBSD flag name.** The NetBSD rc.conf key is `ipfilter` (line 88), not
  `ipfilter_enable`.

## Model

| member | source | states |
|---|---|---|
| Host.ReadRcConf | library/firewall_facts.py:55 | `open('/etc/rc.conf').readlines()` raises `FileNotFound("/etc/rc.conf")` exactly when the file is missing; otherwise it yields the file's lines |
| Host.StatDevice | library/firewall_facts.py:86 | `os.stat('/dev/<name>')` succeeds exactly when the node exists and then returns a non-empty (so truthy) tuple; otherwise it raises `FileNotFound("/dev/<name>")` |
| FirewallFacts.DetectService | library/firewall_facts.py:45-51 | the service counts as present iff the `is-active` rc is 0 or the `is-enabled` rc is 0; `is-active` is always asked first, and `is-enabled` is asked (as the second and last probe) iff `is-active` was non-zero |
| FirewallFacts.AnyLineStartsWith | library/firewall_facts.py:55-58 | the line scan returns true iff some line has the given prefix |
| FirewallFacts.DetectRcConf | library/firewall_facts.py:54-58 | opens rc.conf once; a missing file is the `FileNotFound` error; otherwise true iff some line starts with the exact text `name="YES"` |
| FirewallFacts.FirstService | library/firewall_facts.py:62-64 | the result is empty iff no candidate is present, and then the probes are `is-active` then `is-enabled` for each candidate in order; otherwise it is the candidate `cands[k]` that is present and preceded only by absent ones, and the probes are both queries for each of `cands[..k]` in order followed by `detect_service`'s probes of `cands[k]` (lines 47-51); every probe is a systemctl query about a candidate |
| FirewallFacts.LinuxFw | library/firewall_facts.py:61-66 | the answer is always one of the four candidates; when `k` is the first present one, the answer is candidate `k` and the probes are both queries for each earlier candidate in order, then `detect_service`'s probes of candidate `k` (lines 47-51); when none is present, the answer is `iptables` after both queries for all four; only candidates are queried |
| FirewallFacts.FirstEnabled | library/firewall_facts.py:70-72 | opens rc.conf once per name tried; a missing file raises at the first try; otherwise it returns the first name whose `<name>_enable` flag is set (after `k+1` opens), or nothing after trying every name with none set |
| FirewallFacts.FreeBsdFw | library/firewall_facts.py:69-77 | missing rc.conf is the `FileNotFound` error after one open; otherwise `pf` if `pf_enable="YES"`, else `ipfilter` if `ipfilter_enable="YES"`, else `ipfw` (firewall_enable plays no part); rc.conf is opened 1, 2 or 3 times accordingly |
| FirewallFacts.OpenBsdFw | library/firewall_facts.py:80-81 | `pf` for every host, with no probe |
| FirewallFacts.FirstDevice | library/firewall_facts.py:85-87 | for any stat function: the loop stops at the first node whose stat raised or was truthy; the probes are exactly the stats up to there, in order; the result is the exception raised there, that node's name, or nothing when every stat was falsy |
| FirewallFacts.NetBsdProcedure | library/firewall_facts.py:84-90 | the full NetBSD table for any stat function: `pf` if its stat is truthy, then `npf`, then `ipfilter` if rc.conf has `ipfilter="YES"`, else `pf`; an exception from a stat or from opening rc.conf ends the run; the probes are given for each case |
| FirewallFacts.NetBsdFw | library/firewall_facts.py:84-90 | with the real `os.stat`, only `/dev/pf` is ever probed; the result is `pf` when it exists and `FileNotFound("/dev/pf")` when it does not |
| FirewallFacts.Invoke | library/firewall_facts.py:92-97 | each table entry runs its own detector: `DetectLinux` gives `LinuxFw`'s answer as a success, and `DetectFreeBsd`, `DetectNetBsd` and `DetectOpenBsd` give exactly `FreeBsdFw`, `NetBsdFw` and `OpenBsdFw`; every name returned is one of the eight firewall kinds; the Linux and OpenBSD procedures never fail |
| FirewallFacts.RunModule | library/firewall_facts.py:100-112 | `Linux`, `FreeBSD`, `NetBSD` and `OpenBSD` each report, under `firewall` with `changed=False`, the answer of their own detector (`LinuxFw`, `FreeBsdFw`, `NetBsdFw`, `pf`), with exactly its probes, or end in that detector's uncaught exception; a platform outside `FW_VTABLE` gives `fail_json` with no probe; a supported platform never gives `fail_json`; success is `changed=False` with the single fact `firewall`, one of the eight kinds; success happens exactly for Linux and OpenBSD, for FreeBSD with rc.conf present, and for NetBSD with `/dev/pf` present; any other end is an uncaught `FileNotFound` for rc.conf or `/dev/pf` |
| FirewallFactsProps.FirstServiceStopsAt | library/firewall_facts.py:62-64 | when `cands[k]` is the first present candidate, the search returns it, its probes are both queries for each of `cands[..k]` in order then `detect_service`'s probes of `cands[k]`, and no candidate after it is probed |
| FirewallFactsProps.FirstServiceIgnoresLater | library/firewall_facts.py:62-64 | two hosts that agree on the candidates up to the first present one give the same result and the same probes |
| FirewallFactsProps.FirstServiceNoneFound | library/firewall_facts.py:62-64 | when no candidate is present, the search finds nothing after issuing `is-active` then `is-enabled` for each candidate in order |
| FirewallFactsProps.LinuxPriority | library/firewall_facts.py:61-64 | Linux reports the first present service in the order firewalld, nftables, iptables, shorewall; its probes are both queries for each earlier candidate in order, then `detect_service`'s probes of that service, and no later one is queried |
| FirewallFactsProps.BothQueriesAt | library/firewall_facts.py:62-64 | in the trace of passing over absent candidates, entry `2j` is `is-active` and entry `2j+1` is `is-enabled` of the `j`-th candidate |
| FirewallFactsProps.LinuxFirewalldActive | library/firewall_facts.py:61-64 | with firewalld active, Linux reports `firewalld` after the single query `is-active firewalld` |
| FirewallFactsProps.LinuxDefault | library/firewall_facts.py:61-66 | with no candidate active or enabled, Linux reports `iptables` after all eight queries in order |
| FirewallFactsProps.LinuxIgnoresLater | library/firewall_facts.py:61-66 | no candidate after the first present one affects Linux's result or probes |
| FirewallFactsProps.HasFlagAppend | library/firewall_facts.py:55-58 | after a line is appended to rc.conf, a flag is set iff it was set before or the new line starts with the flag text |
| FirewallFactsProps.RcFlagIsLiteral | library/firewall_facts.py:56 | for `pf_enable`, the flag test is a literal, case-sensitive prefix test: other case, spaces around `=`, a leading space or `#`, or missing quotes do not match; trailing text does; an empty file matches nothing |
| FirewallFactsProps.FreeBsdIgnoresFirewallEnable | library/firewall_facts.py:73-77 | adding a `firewall_enable="YES"` line never changes FreeBSD's result: both tail branches return `ipfw` |
| FirewallFactsProps.FreeBsdExamples | library/firewall_facts.py:69-77 | only `ipfilter_enable="YES"` gives `ipfilter`; an empty rc.conf gives `ipfw`; only `firewall_enable="YES"` gives `ipfw`; a missing rc.conf is an error |
| FirewallFactsProps.NetBsdOnlyPf | library/firewall_facts.py:84-90 | NetBSD never reports `npf` or `ipfilter`, and its result and probes depend only on whether `/dev/pf` exists |
| FirewallFactsProps.NetBsdWithExistenceTest | library/firewall_facts.py:84-90 | if stat were a pure existence test, the same procedure would give `pf`, then `npf`, then the `ipfilter` flag, then `pf` |
| FirewallFactsProps.RunModuleReportsProcedure | library/firewall_facts.py:104-112 | for a supported platform, `main` gives `exit_json(changed=False, ansible_facts={'firewall': f})` with the procedure's answer `f`, or the procedure's uncaught exception, and issues exactly the procedure's probes |

## Left out

- `AnsibleModule`, `get_platform`, `exit_json` and `fail_json` are framework calls. The platform string and the systemctl exit codes are inputs. The module's exit is the `ModuleExit` value.
- `run_command` and `get_bin_path`: only the exit code of each systemctl call is modelled. The standard output and error are ignored, as in the code. If `systemctl` is not installed, `get_bin_path` returns `None` and `"%s is-active %s" % (None, service)` at line 47 builds the command string `None is-active <service>`; what `run_command` then does with it is not modelled, and the oracle simply supplies an exit code.
- Process execution, `open('/etc/rc.conf')` and `os.stat('/dev/...')` are host I/O. They are replaced by the `Machine` observations. The model does not cover rc.conf changing between two opens during one run, or the splitting of the file into lines by `readlines`.
- Host.ReadRcConf: only a missing file is modelled as an exception. Other `OSError`s, such as permission denied, are not. Neither is the `UnicodeDecodeError` that `readlines()` raises in text mode on bytes the locale encoding rejects; the model reads every present file as its lines.
- Host.StatDevice: only a missing node is modelled as an exception. Other `OSError`s are not.
- The `ANSIBLE_METADATA`, `DOCUMENTATION` and `EXAMPLES` strings and the `__main__` guard are left out: they hold no logic.
