/** Installing and removing the PAC setting, kinetic-pac/src/main.rs and its os/ configurators, with a crash possible
    after any step. */
module Pac {
  import opened Results

  /** The proxy settings as `save_state` reports them. */
  datatype Settings = Settings(
    pacUrl: Option<string>, proxyType: Option<string>, macServices: Option<map<string, string>>)

  /** The configurators; `services` are the enabled network services of a macOS machine. */
  datatype Desktop = Kde | Gnome | Windows | MacOs(services: set<string>) | Fallback

  /** The settings a desktop's `save_state` can report when its commands succeed. */
  ghost predicate Reports(d: Desktop, s: Settings) {
    match d
    case Kde => s.macServices.None? && s.proxyType.Some?
    case Gnome => s.macServices.None? && s.proxyType.Some?
    case Windows => s.macServices.None? && s.proxyType.None?
    case MacOs(services) =>
      s.pacUrl.None? && s.proxyType.None? && s.macServices.Some? && s.macServices.value.Keys <= services
    case Fallback => s == Settings(None, None, None)
  }

  /** The configurator's `install` */
  function OsInstall(d: Desktop, s: Settings, url: string): Settings {
    match d
    case Kde => Settings(Some(url), Some("2"), None)
    case Gnome => Settings(Some("'" + url + "'"), Some("'auto'"), None)
    case Windows => s.(pacUrl := Some(url))
    case MacOs(services) => Settings(None, None, Some(map k | k in services :: url))
    case Fallback => s
  }

  /** The configurator's `restore_state`. KDE writes only what was saved, so it never clears a script URL. */
  function OsRestore(d: Desktop, s: Settings, saved: Settings): Settings {
    match d
    case Kde => Settings(if saved.pacUrl.Some? then saved.pacUrl else s.pacUrl,
                         if saved.proxyType.Some? then saved.proxyType else s.proxyType, None)
    case Gnome => Settings(saved.pacUrl, if saved.proxyType.Some? then saved.proxyType else s.proxyType, None)
    case Windows => s.(pacUrl := saved.pacUrl)
    case MacOs(services) =>
      var kept := if saved.macServices.Some? then saved.macServices.value else map[];
      Settings(None, None, Some(map k | k in kept && k in services :: kept[k]))
    case Fallback => s
  }

  /** The configurator's `uninstall` */
  function OsStrip(d: Desktop, s: Settings): Settings {
    match d
    case Kde => s.(proxyType := Some("0"))
    case Gnome => s.(proxyType := Some("'none'"))
    case Windows => s.(pacUrl := None)
    case MacOs(_) => Settings(None, None, Some(map[]))
    case Fallback => s
  }

  /** Original settings that the desktop's own restore can bring back after an install. */
  predicate Restorable(d: Desktop, original: Settings) { d.Kde? ==> original.pacUrl.Some? }

  /** Restoring over any other settings gives exactly the saved ones, except that KDE keeps a script URL where none
      was saved. */
  lemma RestoreExactlyWhen(d: Desktop, s: Settings, saved: Settings)
    requires Reports(d, s) && Reports(d, saved)
    ensures OsRestore(d, s, saved) == saved <==> Restorable(d, saved) || s.pacUrl.None?
  {
    if d.MacOs? {
      assert OsRestore(d, s, saved).macServices.value == saved.macServices.value;
    }
  }

  lemma OsStaysReportable(d: Desktop, s: Settings, saved: Settings, url: string)
    requires Reports(d, s) && Reports(d, saved)
    ensures Reports(d, OsInstall(d, s, url)) && Reports(d, OsRestore(d, s, saved)) && Reports(d, OsStrip(d, s))
  {
  }

  /** The OS settings and the lock file. */
  datatype Machine = Machine(os: Settings, lock: Option<Settings>)

  /** `contains("16001")` */
  predicate HasPort(url: string) {
    exists i :: 0 <= i < |url| && PortAt(url, i)
  }

  predicate PortAt(url: string, i: nat) { i + 5 <= |url| && url[i..i + 5] == "16001" }

  /** The drift check of `uninstall`: does the OS still point at Kinetic? */
  predicate LooksKinetic(s: Settings) {
    if s.macServices.Some? then
      |s.macServices.value| > 0 && forall k :: k in s.macServices.value ==> HasPort(s.macServices.value[k])
    else s.pacUrl.Some? && HasPort(s.pacUrl.value)
  }

  lemma QuotedHasPort(url: string)
    requires HasPort(url)
    ensures HasPort("'" + url + "'")
  {
    var i :| 0 <= i < |url| && PortAt(url, i);
    var quoted := "'" + url + "'";
    assert quoted[i + 1..i + 6] == url[i..i + 5];
    assert PortAt(quoted, i + 1);
  }

  /** A URL with the port passes the drift check once installed, wherever installing it changes anything. */
  lemma InstalledUrlRecognised(d: Desktop, s: Settings, url: string)
    requires Reports(d, s) && HasPort(url)
    ensures LooksKinetic(OsInstall(d, s, url)) || OsInstall(d, s, url) == s
  {
    hide HasPort;
    match d
    case Gnome => QuotedHasPort(url);
    case MacOs(services) =>
      var shown: map<string, string> := map k | k in services :: url;
      assert shown.Keys == services;
      if services == {} {
        assert s.macServices.value == map[];
        assert OsInstall(d, s, url) == s;
      } else {
        assert |shown| == |services| > 0;
      }
    case _ =>
  }

  const INSTALL_STEPS: nat := 3
  const UNINSTALL_STEPS: nat := 2

  function RestoreFromLock(d: Desktop, m: Machine): Machine {
    if m.lock.Some? then m.(os := OsRestore(d, m.os, m.lock.value)) else m
  }

  /** `install`, cut off after `steps` of its effects: restore the backup, replace the lock, set the URL. */
  function Install(d: Desktop, m: Machine, url: string, steps: nat): Machine {
    if steps == 0 then m
    else
      var restored := RestoreFromLock(d, m);
      if steps == 1 then restored
      else
        var saved := restored.(lock := Some(restored.os));
        if steps == 2 then saved else saved.(os := OsInstall(d, saved.os, url))
  }

  /** `uninstall`, cut off after `steps` of its effects: settle the OS settings, remove the lock. */
  function Uninstall(d: Desktop, m: Machine, steps: nat): Machine {
    if steps == 0 then m
    else if m.lock.None? then m.(os := OsStrip(d, m.os))
    else
      var settled := if LooksKinetic(m.os) then RestoreFromLock(d, m) else m;
      if steps == 1 then settled else settled.(lock := None)
  }

  class PacManager {
    var os: Settings
    var lock: Option<Settings>
    const desktop: Desktop

    ghost function View(): Machine
      reads this
    {
      Machine(os, lock)
    }

    /** `new` finds the settings and whatever lock an earlier process left. */
    constructor (d: Desktop, found: Machine)
      ensures desktop == d && View() == found
    {
      desktop, os, lock := d, found.os, found.lock;
    }

    /** `steps` counts the effects that happen before the process dies; 3 or more is a full install. */
    method InstallPac(url: string, steps: nat)
      modifies this
      ensures View() == Install(desktop, old(View()), url, steps)
    {
      if steps == 0 { return; }
      if lock.Some? {
        os := OsRestore(desktop, os, lock.value);
      }
      var previous := os;
      if steps == 1 { return; }
      lock := Some(previous);
      if steps == 2 { return; }
      os := OsInstall(desktop, os, url);
    }

    method UninstallPac(steps: nat)
      modifies this
      ensures View() == Uninstall(desktop, old(View()), steps)
    {
      if steps == 0 { return; }
      if lock.Some? {
        var tampered := !LooksKinetic(os);
        if !tampered {
          os := OsRestore(desktop, os, lock.value);
        }
        if steps == 1 { return; }
        lock := None;
      } else {
        os := OsStrip(desktop, os);
      }
    }
  }

  datatype Event = InstallEvent(url: string, steps: nat) | UninstallEvent(steps: nat)

  function Step(d: Desktop, m: Machine, ev: Event): Machine {
    match ev
    case InstallEvent(url, steps) => Install(d, m, url, steps)
    case UninstallEvent(steps) => Uninstall(d, m, steps)
  }

  lemma StepPerforms(d: Desktop, m: Machine, ev: Event)
    ensures ev.InstallEvent? ==> Step(d, m, ev) == Install(d, m, ev.url, ev.steps)
    ensures ev.UninstallEvent? ==> Step(d, m, ev) == Uninstall(d, m, ev.steps)
  {
    hide Install;
    hide Uninstall;
  }

  function Run(d: Desktop, m: Machine, events: seq<Event>): Machine
    decreases |events|
  {
    if |events| == 0 then m else Run(d, Step(d, m, events[0]), events[1..])
  }

  /** An uninstall that takes effect without a lock: it strips the settings it finds. */
  predicate StripsUser(m: Machine, ev: Event) { ev.UninstallEvent? && ev.steps > 0 && m.lock.None? }

  /** The settings the user is owed after a run: the original ones, stripped once per uninstall that found no lock. */
  function Owed(d: Desktop, m: Machine, original: Settings, events: seq<Event>): Settings
    decreases |events|
  {
    if |events| == 0 then original
    else
      Owed(d, Step(d, m, events[0]), if StripsUser(m, events[0]) then OsStrip(d, original) else original, events[1..])
  }

  /** Every uninstall of the run that takes effect finds the lock. */
  predicate AlwaysLocked(d: Desktop, m: Machine, events: seq<Event>)
    decreases |events|
  {
    |events| > 0 ==> !StripsUser(m, events[0]) && AlwaysLocked(d, Step(d, m, events[0]), events[1..])
  }

  ghost predicate PortsInstalled(events: seq<Event>) {
    forall i :: 0 <= i < |events| && events[i].InstallEvent? ==> HasPort(events[i].url)
  }

  /** The lock, when present, holds the settings owed; without it the OS itself has them; and settings that differ
      from them are recognisably Kinetic's. */
  ghost predicate BackupIntact(d: Desktop, m: Machine, owed: Settings) {
    && Reports(d, m.os) && Reports(d, owed) && Restorable(d, owed)
    && (m.lock.Some? ==> m.lock.value == owed)
    && (m.lock.None? ==> m.os == owed)
    && (m.os == owed || LooksKinetic(m.os))
  }

  lemma StepKeepsBackup(d: Desktop, m: Machine, owed: Settings, ev: Event)
    requires BackupIntact(d, m, owed) && PortsInstalled([ev])
    ensures BackupIntact(d, Step(d, m, ev), if StripsUser(m, ev) then OsStrip(d, owed) else owed)
  {
    hide LooksKinetic;
    hide Reports;
    hide OsInstall;
    hide OsRestore;
    RestoreExactlyWhen(d, m.os, owed);
    match ev
    case InstallEvent(url, steps) =>
      assert HasPort([ev][0].url);
      OsStaysReportable(d, owed, owed, url);
      InstalledUrlRecognised(d, owed, url);
    case UninstallEvent(steps) =>
      OsStaysReportable(d, owed, owed, "");
  }

  /** Crash safety: over any run of installs and uninstalls, interrupted anywhere, the backup stays what is owed. */
  lemma {:induction false} RunKeepsBackup(d: Desktop, m: Machine, owed: Settings, events: seq<Event>)
    requires BackupIntact(d, m, owed) && PortsInstalled(events)
    ensures BackupIntact(d, Run(d, m, events), Owed(d, m, owed, events))
    decreases |events|
  {
    hide Step;
    hide BackupIntact;
    hide HasPort;
    hide OsStrip;
    if |events| > 0 {
      assert [events[0]][0] == events[0];
      StepKeepsBackup(d, m, owed, events[0]);
      var owed' := if StripsUser(m, events[0]) then OsStrip(d, owed) else owed;
      RunKeepsBackup(d, Step(d, m, events[0]), owed', events[1..]);
    }
  }

  lemma {:induction false} OwedOriginal(d: Desktop, m: Machine, original: Settings, events: seq<Event>)
    requires AlwaysLocked(d, m, events)
    ensures Owed(d, m, original, events) == original
    decreases |events|
  {
    hide Step;
    hide OsStrip;
    if |events| > 0 {
      OwedOriginal(d, Step(d, m, events[0]), original, events[1..]);
    }
  }

  /** However a run went, a full uninstall that finds the lock restores exactly what is owed: the original settings
      when no earlier uninstall came without a lock. */
  lemma UninstallRestores(d: Desktop, original: Settings, events: seq<Event>)
    requires Reports(d, original) && Restorable(d, original) && PortsInstalled(events)
    requires Run(d, Machine(original, None), events).lock.Some?
    ensures var start := Machine(original, None);
            var settled := Uninstall(d, Run(d, start, events), UNINSTALL_STEPS);
            && settled == Machine(Owed(d, start, original, events), None)
            && (AlwaysLocked(d, start, events) ==> settled == start)
  {
    hide Run;
    hide Owed;
    hide LooksKinetic;
    hide Reports;
    var start := Machine(original, None);
    RunKeepsBackup(d, start, original, events);
    var m, owed := Run(d, start, events), Owed(d, start, original, events);
    RestoreExactlyWhen(d, m.os, owed);
    if AlwaysLocked(d, start, events) {
      OwedOriginal(d, start, original, events);
    }
  }

  /** The backup stays the original over every such run. */
  ghost predicate BackupSafe(d: Desktop, original: Settings) {
    forall events :: PortsInstalled(events) && AlwaysLocked(d, Machine(original, None), events) ==>
      var m := Run(d, Machine(original, None), events);
      m.lock.Some? ==> m.lock.value == original
  }

  /** The URL the service installs. */
  const PAC_URL: string := "http://127.0.0.1:16001/proxy.pac"

  lemma PacUrlHasPort()
    ensures HasPort(PAC_URL)
  {
    assert PortAt(PAC_URL, 17);
  }

  lemma RunOfTwo(d: Desktop, m: Machine, first: Event, second: Event)
    ensures Run(d, m, [first, second]) == Step(d, Step(d, m, first), second)
    ensures first.InstallEvent? && second.InstallEvent? ==> AlwaysLocked(d, m, [first, second])
  {
    hide Step;
    assert [first, second][1..] == [second] && [second][1..] == [];
    assert Run(d, Step(d, m, first), [second]) == Run(d, Step(d, Step(d, m, first), second), []);
    assert first.InstallEvent? && second.InstallEvent? ==> AlwaysLocked(d, Step(d, m, first), [second]);
  }

  /** Crash safety holds exactly when the desktop can restore the original settings: on KDE without a script URL, a
      second install after a crash saves Kinetic's own URL as the backup. */
  lemma BackupSafeExactlyWhenRestorable(d: Desktop, original: Settings)
    requires Reports(d, original)
    ensures BackupSafe(d, original) <==> Restorable(d, original)
  {
    hide HasPort;
    var start := Machine(original, None);
    if Restorable(d, original) {
      forall events | PortsInstalled(events) && AlwaysLocked(d, start, events)
        ensures var m := Run(d, start, events); m.lock.Some? ==> m.lock.value == original
      {
        RunKeepsBackup(d, start, original, events);
        OwedOriginal(d, start, original, events);
      }
    } else {
      PacUrlHasPort();
      var full, again := InstallEvent(PAC_URL, INSTALL_STEPS), InstallEvent(PAC_URL, 2);
      var events := [full, again];
      var once := Step(d, start, full);
      var twice := Step(d, once, again);
      RunOfTwo(d, start, full, again);
      assert twice.lock.value.pacUrl == Some(PAC_URL);
      assert PortsInstalled(events);
    }
  }

  /** Quoting neither adds nor hides the port. */
  lemma QuotesHideNothing(url: string)
    ensures HasPort("'" + url + "'") <==> HasPort(url)
  {
    var quoted := "'" + url + "'";
    if HasPort(url) {
      QuotedHasPort(url);
    }
    if HasPort(quoted) {
      var i :| 0 <= i < |quoted| && PortAt(quoted, i);
      assert quoted[i] == quoted[i..i + 5][0] && quoted[i + 4] == quoted[i..i + 5][4];
      assert url[i - 1..i + 4] == quoted[i..i + 5];
      assert PortAt(url, i - 1);
    }
  }

  /** One full install and one full uninstall: the original settings come back exactly when installing changed nothing,
      or the URL has the port and the desktop can restore them. */
  lemma RoundTripExactlyWhen(d: Desktop, original: Settings, url: string)
    requires Reports(d, original)
    ensures var after := Uninstall(d, Install(d, Machine(original, None), url, INSTALL_STEPS), UNINSTALL_STEPS);
            && after.lock == None
            && (after.os == original <==>
                  OsInstall(d, original, url) == original || (HasPort(url) && Restorable(d, original)))
  {
    hide HasPort;
    hide LooksKinetic;
    hide Reports;
    var installed := OsInstall(d, original, url);
    OsStaysReportable(d, original, original, url);
    RestoreExactlyWhen(d, installed, original);
    KdeInstallSetsUrl(d, original, url);
    if HasPort(url) {
      InstalledUrlRecognised(d, original, url);
    } else if !d.Fallback? {
      UnmarkedUrlIsNotRecognised(d, original, url);
    }
  }

  lemma UnmarkedUrlIsNotRecognised(d: Desktop, s: Settings, url: string)
    requires Reports(d, s) && !HasPort(url) && !d.Fallback?
    ensures !LooksKinetic(OsInstall(d, s, url))
  {
    hide HasPort;
    DriftCheckExactlyWhen(d, OsInstall(d, s, url));
    OsStaysReportable(d, s, s, url);
    QuotesHideNothing(url);
    match d
    case MacOs(services) =>
      var shown := OsInstall(d, s, url).macServices.value;
      if services == {} {
        assert shown == map[];
      } else {
        var k :| k in services;
        assert k in shown && shown[k] == url;
      }
    case _ =>
  }

  lemma KdeInstallSetsUrl(d: Desktop, s: Settings, url: string)
    ensures d.Kde? ==> OsInstall(d, s, url).pacUrl == Some(url)
  {
  }

  /** With the service's URL the original settings come back on every desktop, except KDE without a script URL, where
      Kinetic's URL stays behind under the restored proxy type. */
  lemma ServiceRoundTrip(d: Desktop, original: Settings)
    requires Reports(d, original)
    ensures Uninstall(d, Install(d, Machine(original, None), PAC_URL, INSTALL_STEPS), UNINSTALL_STEPS)
         == Machine(if Restorable(d, original) then original else original.(pacUrl := Some(PAC_URL)), None)
  {
    PacUrlHasPort();
    hide HasPort;
    InstalledUrlRecognised(d, original, PAC_URL);
    RoundTripExactlyWhen(d, original, PAC_URL);
  }

  /** The service uninstalls at shutdown and once more when it is removed; the second call finds no lock and strips
      the settings the first one restored. */
  lemma SecondUninstallStrips(d: Desktop, original: Settings)
    requires Reports(d, original) && Restorable(d, original)
    ensures var once := Uninstall(d, Install(d, Machine(original, None), PAC_URL, INSTALL_STEPS), UNINSTALL_STEPS);
            Uninstall(d, once, UNINSTALL_STEPS) == Machine(OsStrip(d, original), None)
  {
    ServiceRoundTrip(d, original);
  }

  /** Which settings an uninstall without a lock leaves alone, desktop by desktop. */
  lemma LocklessUninstallKeepsExactlyWhen(d: Desktop, s: Settings)
    requires Reports(d, s)
    ensures Uninstall(d, Machine(s, None), UNINSTALL_STEPS).os == s <==>
            match d
            case Kde => s.proxyType == Some("0")
            case Gnome => s.proxyType == Some("'none'")
            case Windows => s.pacUrl == None
            case MacOs(_) => s.macServices == Some(map[])
            case Fallback => true
  {
  }

  /** The user's setting shows through `save_state` as something other than Kinetic's: on macOS no service shows a URL
      or some service shows one without the port, elsewhere no URL is set or it lacks the port. */
  predicate ChangedByUser(d: Desktop, current: Settings) {
    if d.MacOs? then
      var shown := if current.macServices.Some? then current.macServices.value else map[];
      shown == map[] || exists k :: k in shown && !HasPort(shown[k])
    else current.pacUrl.None? || !HasPort(current.pacUrl.value)
  }

  lemma DriftCheckExactlyWhen(d: Desktop, current: Settings)
    requires Reports(d, current)
    ensures LooksKinetic(current) <==> !ChangedByUser(d, current)
  {
    hide HasPort;
    if d.MacOs? {
      var shown := current.macServices.value;
      assert |shown| == 0 <==> shown == map[];
    }
  }

  /** A setting the user changed is left alone: the uninstall only removes the lock. */
  lemma ChangedSettingIsKept(d: Desktop, current: Settings, saved: Settings)
    requires Reports(d, current) && ChangedByUser(d, current)
    ensures Uninstall(d, Machine(current, Some(saved)), UNINSTALL_STEPS) == Machine(current, None)
  {
    hide HasPort;
    hide LooksKinetic;
    DriftCheckExactlyWhen(d, current);
  }

  /** With the lock present, a full uninstall keeps the user's current settings exactly when the user changed them, or
      they are the saved ones, or differ from them only in a script URL that KDE's restore would not clear. */
  lemma UserSettingsSurviveExactlyWhen(d: Desktop, current: Settings, saved: Settings)
    requires Reports(d, current) && Reports(d, saved)
    ensures Uninstall(d, Machine(current, Some(saved)), UNINSTALL_STEPS).lock == None
    ensures Uninstall(d, Machine(current, Some(saved)), UNINSTALL_STEPS).os == current <==>
            || ChangedByUser(d, current)
            || current == saved
            || (d.Kde? && saved.pacUrl.None? && current.proxyType == saved.proxyType)
  {
    hide LooksKinetic;
    hide ChangedByUser;
    DriftCheckExactlyWhen(d, current);
    RestoreExactlyWhen(d, current, saved);
  }

  /** The port test finds "16001" anywhere in the URL. */
  lemma HasPortExactlyWhen(url: string)
    ensures HasPort(url) <==> exists before: string, after: string :: url == before + "16001" + after
  {
    if HasPort(url) {
      var i :| 0 <= i < |url| && PortAt(url, i);
      assert url == url[..i] + "16001" + url[i + 5..];
    }
    if before: string, after: string :| url == before + "16001" + after {
      assert PortAt(url, |before|);
    }
  }

  /** What an install leaves in place, desktop by desktop: the URL everywhere it can go, and the mode that uses it. */
  lemma InstallTakesEffect(d: Desktop, s: Settings, url: string)
    requires Reports(d, s)
    ensures var r := OsInstall(d, s, url);
            && (d.Kde? ==> r.pacUrl == Some(url) && r.proxyType == Some("2"))
            && (d.Gnome? ==> r.pacUrl == Some("'" + url + "'") && r.proxyType == Some("'auto'"))
            && (d.Windows? ==> r.pacUrl == Some(url))
            && (d.MacOs? ==> r.macServices.Some? && r.macServices.value.Keys == d.services
                             && forall k :: k in d.services ==> r.macServices.value[k] == url)
            && (d.Fallback? ==> r == s)
    ensures !d.Fallback? && (d.MacOs? ==> d.services != {}) && HasPort(url) ==> !ChangedByUser(d, OsInstall(d, s, url))
  {
    hide HasPort;
    if d.Gnome? && HasPort(url) {
      QuotedHasPort(url);
    }
    if d.MacOs? && d.services != {} {
      var k :| k in d.services;
      assert k in OsInstall(d, s, url).macServices.value;
    }
  }

  /** What a strip leaves: no URL in use anywhere; KDE and GNOME keep the URL text behind a mode that ignores it. */
  lemma StripDisables(d: Desktop, s: Settings)
    requires Reports(d, s)
    ensures var r := OsStrip(d, s);
            && (d.Kde? ==> r == Settings(s.pacUrl, Some("0"), None))
            && (d.Gnome? ==> r == Settings(s.pacUrl, Some("'none'"), None))
            && (d.Windows? ==> r == Settings(None, None, None))
            && (d.MacOs? ==> r == Settings(None, None, Some(map[])))
            && (d.Fallback? ==> r == s)
  {
  }

  /** The service shows a URL with the port. */
  predicate ShowsKinetic(shown: map<string, string>, service: string) { service in shown && HasPort(shown[service]) }

  predicate ShowsOther(shown: map<string, string>, service: string) { service in shown && !HasPort(shown[service]) }

  /** On macOS the drift check is all or nothing. Over a backup free of Kinetic's URLs, an uninstall leaves one behind,
      and deletes the backup, exactly when some service still shows such a URL and some service shows another. */
  lemma MacUrlStaysExactlyWhen(
    services: set<string>, shown: map<string, string>, backup: map<string, string>)
    requires shown.Keys <= services && backup.Keys <= services
    requires forall k :: !ShowsKinetic(backup, k)
    ensures var m := Machine(Settings(None, None, Some(shown)), Some(Settings(None, None, Some(backup))));
            var after := Uninstall(MacOs(services), m, UNINSTALL_STEPS);
            && after.lock == None && after.os.macServices.Some?
            && ((exists k :: ShowsKinetic(after.os.macServices.value, k)) <==>
                (exists k :: ShowsKinetic(shown, k)) && (exists k :: ShowsOther(shown, k)))
  {
    hide HasPort;
    var current, saved := Settings(None, None, Some(shown)), Settings(None, None, Some(backup));
    assert Reports(MacOs(services), current) && Reports(MacOs(services), saved);
    RestoreExactlyWhen(MacOs(services), current, saved);
    MacLooksKineticExactlyWhen(shown);
    hide LooksKinetic;
  }

  lemma MacLooksKineticExactlyWhen(shown: map<string, string>)
    ensures LooksKinetic(Settings(None, None, Some(shown))) <==>
            (exists k :: ShowsKinetic(shown, k)) && (forall k :: !ShowsOther(shown, k))
  {
    hide HasPort;
    assert |shown| == |shown.Keys|;
    if LooksKinetic(Settings(None, None, Some(shown))) {
      var k :| k in shown.Keys;
      assert ShowsKinetic(shown, k);
    }
    if k :| ShowsKinetic(shown, k) && forall other :: !ShowsOther(shown, other) {
      assert shown.Keys == {k} + (shown.Keys - {k});
      forall other | other in shown
        ensures HasPort(shown[other])
      {
        assert !ShowsOther(shown, other);
      }
    }
  }

  /** Installing again discards a setting the user chose in between: the backup is restored first and stays the
      backup. */
  lemma ReinstallDiscardsUserChange(d: Desktop, original: Settings, url: string, again: string, user: Settings)
    requires Reports(d, original) && Reports(d, user) && Restorable(d, original)
    ensures var installed := Install(d, Machine(original, None), url, INSTALL_STEPS);
            var reinstalled := Install(d, installed.(os := user), again, INSTALL_STEPS);
            reinstalled == Machine(OsInstall(d, original, again), Some(original))
  {
    RestoreExactlyWhen(d, user, original);
  }
}
