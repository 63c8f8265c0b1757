/**
  The state of the launcher window (`EntitanApp`, src/main.rs:76-102) and
  the operations that change it: refreshing the cached locales, rewriting
  Config.wtf, filtering the preferred locale, starting a run, and draining
  the run channel and the file watcher's events.

  The file system, the watcher's events and the outcomes of the spawns are
  parameters; the watcher's subscriptions are kept as a log of the calls
  made to it.
 */
module Entitan {
  import opened Wrappers
  import opened Text
  import opened Disk
  import opened LocaleConfig
  import opened PreferredLocale
  import opened LaunchSequence

  /** A call made on the `notify` watcher. */
  datatype WatchCall = Watch(path: string) | Unwatch(path: string)

  /**
    What the watcher's channel delivers: an event of any kind (access,
    create, modify, remove) naming some paths, or an error. The drain
    reacts to any event that names the configured path, whatever its kind.
  */
  datatype WatchEvent = Event(paths: seq<string>) | WatchError(message: string)

  const ConfigUpdated: string := "Config.wtf updated"
  const UpdateErrorPrefix: string := "Error updating config: "
  const LocaleReset: string := "Preferred locale invalid; reset to enUS"
  const LocaleFiltered: string := "Preferred locale filtered to letters only (max 4)"
  const BadBattleNetPath: string := "Battle.net path must point to an existing .exe"
  const BadWowPath: string := "WoW Executable must point to an existing .exe"
  const RunStarting: string := "Starting run sequence..."
  const RunCompleted: string := "Run sequence completed"
  const ConfigReloaded: string := "Config.wtf changed on disk; reloaded"
  const WatcherErrorPrefix: string := "File watcher error: "

  // ---------------------------------------------------------------- path cache and watcher

  /** The path `update_locales` records: none for an empty path. */
  function CachedPath(cfg: string): (r: Option<string>)
    ensures r.Some? <==> cfg != ""
    ensures r.Some? ==> r.value == cfg
  {
    if cfg == "" then None else Some(cfg)
  }

  /**
    The watcher calls `update_locales` makes when the path changed
    (src/main.rs:171-178): unwatch the old path, if any, then watch the new
    one, if any; nothing without a watcher.
   */
  function Resubscribe(watcherPresent: bool, oldPath: Option<string>, cfg: string): (r: seq<WatchCall>)
    ensures !watcherPresent ==> r == []
    ensures watcherPresent ==> |r| == (if oldPath.Some? then 1 else 0) + (if cfg != "" then 1 else 0)
    ensures watcherPresent && oldPath.Some? ==> r[0] == Unwatch(oldPath.value)
    ensures watcherPresent && cfg != "" ==> r[|r| - 1] == Watch(cfg)
  {
    if !watcherPresent then []
    else (if oldPath.Some? then [Unwatch(oldPath.value)] else []) + (if cfg != "" then [Watch(cfg)] else [])
  }

  // ---------------------------------------------------------------- watcher events

  /** An event reports a change to the configured, non-empty path (src/main.rs:722-726). */
  predicate TouchesConfig(e: WatchEvent, cfg: string) {
    e.Event? && cfg != "" && cfg in e.paths
  }

  /** The status one event leaves, if it sets one (src/main.rs:729-737). */
  function EventStatus(e: WatchEvent, cfg: string): (r: Option<string>)
    ensures r.Some? <==> e.WatchError? || TouchesConfig(e, cfg)
  {
    match e
    case WatchError(message) => Some(WatcherErrorPrefix + message)
    case Event(_) => if TouchesConfig(e, cfg) then Some(ConfigReloaded) else None
  }

  /** The status after a batch of events: the last event that sets one wins. */
  function WatchStatus(status: Option<string>, events: seq<WatchEvent>, cfg: string): Option<string>
    decreases |events|
  {
    if events == [] then status
    else match EventStatus(events[|events| - 1], cfg)
      case Some(s) => Some(s)
      case None => WatchStatus(status, events[..|events| - 1], cfg)
  }

  /** How many events of a batch force a reload. */
  function ReloadCount(events: seq<WatchEvent>, cfg: string): (n: nat)
    ensures n <= |events|
    decreases |events|
  {
    if events == [] then 0
    else ReloadCount(events[..|events| - 1], cfg) + (if TouchesConfig(events[|events| - 1], cfg) then 1 else 0)
  }

  /** A batch reloads nothing exactly when none of its events names the configured path. */
  lemma {:induction false} NoReloadWithoutConfigEvent(events: seq<WatchEvent>, cfg: string)
    ensures ReloadCount(events, cfg) == 0 <==> forall i :: 0 <= i < |events| ==> !TouchesConfig(events[i], cfg)
    decreases |events|
  {
    if events != [] {
      var init := events[..|events| - 1];
      NoReloadWithoutConfigEvent(init, cfg);
      assert forall i :: 0 <= i < |init| ==> init[i] == events[i];
    }
  }

  /** Events about other paths, with no error among them, leave the status as it was. */
  lemma {:induction false} OtherPathsKeepStatus(status: Option<string>, events: seq<WatchEvent>, cfg: string)
    requires forall i :: 0 <= i < |events| ==> events[i].Event? && !TouchesConfig(events[i], cfg)
    ensures WatchStatus(status, events, cfg) == status
    decreases |events|
  {
    if events != [] {
      var init := events[..|events| - 1];
      assert forall i :: 0 <= i < |init| ==> init[i] == events[i];
      OtherPathsKeepStatus(status, init, cfg);
    }
  }

  /** The `n` subscriptions that `n` reloads of the same path add. */
  function Repeat(call: WatchCall, n: nat): (r: seq<WatchCall>)
    ensures |r| == n && forall i :: 0 <= i < n ==> r[i] == call
  {
    seq(n, _ => call)
  }

  /** One more repetition is one more element at the end. */
  lemma {:induction false} RepeatSnoc(call: WatchCall, n: nat)
    ensures Repeat(call, n + 1) == Repeat(call, n) + [call]
  {
  }

  // ---------------------------------------------------------------- run channel

  /** The status one drained run message leaves (src/main.rs:700-708). */
  function MessageStatus(message: string): string {
    if message == Finished then RunCompleted else message
  }

  /**
    The run channel and the run flag agree: a run is active exactly while
    the channel still holds messages, and what it holds ends with the one
    "FINISHED" of the run.
   */
  predicate RunChannelValid(runActive: bool, channel: seq<string>) {
    && (runActive <==> channel != [])
    && (channel != [] ==> channel[|channel| - 1] == Finished && Finished !in channel[..|channel| - 1])
  }

  /** A fresh run's messages make a valid channel for an active run. */
  lemma {:induction false} StartedRunIsValid(battle: SpawnOutcome, wow: SpawnOutcome, relaunch: SpawnOutcome)
    ensures RunChannelValid(true, LaunchMessages(battle, wow, relaunch))
  {
    FinishedOnlyAtEnd(battle, wow, relaunch);
  }

  /**
    Draining the first `n` messages keeps the channel valid: the flag drops
    exactly when "FINISHED" is among them, which empties the channel.
   */
  lemma {:induction false} DrainKeepsRunChannelValid(runActive: bool, channel: seq<string>, n: nat)
    requires RunChannelValid(runActive, channel) && n <= |channel|
    ensures RunChannelValid(runActive && Finished !in channel[..n], channel[n..])
    ensures Finished in channel[..n] <==> n == |channel| && channel != []
  {
    if 0 < n < |channel| {
      assert channel[..n] == channel[..|channel| - 1][..n];
    }
    if n == |channel| && channel != [] {
      assert channel[..n][n - 1] == Finished;
    }
  }

  /** Is `path` an existing file with extension `.exe` (src/main.rs:589-592)? */
  predicate IsExe(fs: FileSystem, path: string) {
    Exists(fs, path) && IsFileWithExt(fs, path, "exe")
  }

  // ---------------------------------------------------------------- the window state

  class EntitanApp {
    var battleNetPath: string
    var configPath: string
    var wowPath: string
    var status: Option<string>
    var preferredLocale: string
    var audioLocale: Option<string>
    var textLocale: Option<string>
    /** The path the cached locales were read for. */
    var lastConfigPath: Option<string>
    /** Whether the watcher could be created; it is never replaced. */
    const watcherPresent: bool
    /** The calls made on the watcher so far. */
    var watchLog: seq<WatchCall>
    var runActive: bool
    /** Messages of the current run that the window has not yet drained. */
    var runChannel: seq<string>

    ghost predicate Valid()
      reads this
    {
      && (lastConfigPath.Some? ==> lastConfigPath.value != "")
      && RunChannelValid(runActive, runChannel)
    }

    /**
      `EntitanApp::default` (src/main.rs:104-152) given the loaded settings:
      an empty preferred locale becomes "enUS", and a created watcher is
      pointed at an existing Config.wtf.
     */
    constructor(battle: string, config: string, wow: string, preferred: string,
                watcherCreated: bool, fs: FileSystem)
      ensures battleNetPath == battle && configPath == config && wowPath == wow
      ensures preferredLocale == (if preferred == "" then DefaultLocale else preferred)
      ensures status == None && audioLocale == None && textLocale == None && lastConfigPath == None
      ensures watcherPresent == watcherCreated
      ensures watchLog == (if watcherCreated && config != "" && Exists(fs, config) then [Watch(config)] else [])
      ensures !runActive && runChannel == []
      ensures Valid()
    {
      battleNetPath := battle;
      configPath := config;
      wowPath := wow;
      status := None;
      preferredLocale := if preferred == "" then DefaultLocale else preferred;
      audioLocale := None;
      textLocale := None;
      lastConfigPath := None;
      watcherPresent := watcherCreated;
      watchLog := if watcherCreated && config != "" && Exists(fs, config) then [Watch(config)] else [];
      runActive := false;
      runChannel := [];
    }

    /**
      `update_locales` (src/main.rs:157-219): nothing happens while the
      cached path is the configured one; otherwise the new path is recorded,
      the watcher follows it, and the locales are read afresh.
     */
    method UpdateLocales(fs: FileSystem)
      requires Valid()
      modifies this`lastConfigPath, this`watchLog, this`audioLocale, this`textLocale
      ensures Valid()
      ensures old(lastConfigPath) == Some(configPath) ==>
        && lastConfigPath == old(lastConfigPath) && watchLog == old(watchLog)
        && audioLocale == old(audioLocale) && textLocale == old(textLocale)
      ensures old(lastConfigPath) != Some(configPath) ==>
        && lastConfigPath == CachedPath(configPath)
        && watchLog == old(watchLog) + Resubscribe(watcherPresent, old(lastConfigPath), configPath)
        && Locales(audioLocale, textLocale) == Refresh(fs, configPath)
    {
      var cfg := configPath;
      if lastConfigPath == Some(cfg) {
        return;
      }
      var oldPath := lastConfigPath;
      lastConfigPath := if cfg == "" then None else Some(cfg);
      if watcherPresent {
        if oldPath.Some? {
          watchLog := watchLog + [Unwatch(oldPath.value)];
        }
        if cfg != "" {
          watchLog := watchLog + [Watch(cfg)];
        }
      }
      audioLocale := None;
      textLocale := None;

      if cfg == "" || !Exists(fs, cfg) {
        return;
      }
      if Size(fs[cfg]) >= MaxConfigSize {
        audioLocale := Some(TooLargeSentinel);
        textLocale := Some(TooLargeSentinel);
        return;
      }
      match ReadToString(fs[cfg]) {
        case None =>
        case Some(contents) =>
          ScanConfigText(contents);
      }
    }

    /**
      The line loop of `update_locales` (src/main.rs:199-217): each line in
      turn takes one `ScanLine` step, which lets a trimmed line starting
      with a key and holding a quoted value overwrite that key's value.
     */
    method ScanConfigText(contents: string)
      modifies this`audioLocale, this`textLocale
      ensures Locales(audioLocale, textLocale) == ScanLines(Locales(old(audioLocale), old(textLocale)), Lines(contents))
    {
      ghost var start := Locales(audioLocale, textLocale);
      var lines := Lines(contents);
      var i := 0;
      while i < |lines|
        invariant 0 <= i <= |lines|
        invariant Locales(audioLocale, textLocale) == ScanLines(start, lines[..i])
      {
        var updated := ScanLine(Locales(audioLocale, textLocale), lines[i]);
        audioLocale, textLocale := updated.audio, updated.text;
        assert lines[..i + 1][..i] == lines[..i];
        i := i + 1;
      }
      assert lines[..|lines|] == lines;
    }

    /**
      Clearing the cached path, then `update_locales` (src/main.rs:260-261,
      727-728): the locales are read again even when the path is unchanged,
      and the watcher is asked to watch the path once more.
     */
    method ForceRefresh(fs: FileSystem)
      requires Valid()
      modifies this`lastConfigPath, this`watchLog, this`audioLocale, this`textLocale
      ensures Valid()
      ensures lastConfigPath == CachedPath(configPath)
      ensures watchLog == old(watchLog) + (if watcherPresent && configPath != "" then [Watch(configPath)] else [])
      ensures Locales(audioLocale, textLocale) == Refresh(fs, configPath)
    {
      lastConfigPath := None;
      UpdateLocales(fs);
    }

    /**
      `update_config_file_locales` (src/main.rs:223-263): the guards, the
      rewrite of the lines, the write, then a forced re-read of the locales.
      `writeFailure` is the error `fs::write` reports, if any; the returned
      file system is the one after the write.
     */
    method UpdateConfigFileLocales(fs: FileSystem, writeFailure: Option<string>)
      returns (r: Result<(), UpdateError>, fs': FileSystem)
      requires Valid()
      modifies this`lastConfigPath, this`watchLog, this`audioLocale, this`textLocale
      ensures Valid()
      ensures UpdateConfig(fs, configPath, preferredLocale, writeFailure).Failure? ==>
        && r == Failure(UpdateConfig(fs, configPath, preferredLocale, writeFailure).error)
        && fs' == fs
        && lastConfigPath == old(lastConfigPath) && watchLog == old(watchLog)
        && audioLocale == old(audioLocale) && textLocale == old(textLocale)
      ensures UpdateConfig(fs, configPath, preferredLocale, writeFailure).Success? ==>
        && r.Success?
        && fs' == UpdateConfig(fs, configPath, preferredLocale, writeFailure).value
        && lastConfigPath == Some(configPath)
        && watchLog == old(watchLog) + (if watcherPresent then [Watch(configPath)] else [])
        && Locales(audioLocale, textLocale) == Refresh(fs', configPath)
    {
      var cfg, pref := configPath, preferredLocale;
      fs' := fs;
      if cfg == "" {
        return Failure(NotConfigured), fs';
      }
      if !Exists(fs, cfg) || !IsFile(fs, cfg) {
        return Failure(NotFound), fs';
      }
      if Size(fs[cfg]) >= MaxConfigSize {
        return Failure(TooLarge), fs';
      }
      var contents;
      match ReadToString(fs[cfg]) {
        case None =>
          return Failure(ReadFailed), fs';
        case Some(text) => contents := text;
      }
      var lines := RewriteConfigLines(Lines(contents), pref);
      var out := Join(lines) + "\n";
      if writeFailure.Some? {
        return Failure(WriteFailed(writeFailure.value)), fs';
      }
      fs' := fs[cfg := TextFile(out)];
      assert out == RewrittenText(contents, pref);
      assert UpdateConfig(fs, cfg, pref, writeFailure) == Success(fs');
      ForceRefresh(fs');
      r := Success(());
    }

    /** The Update button (src/main.rs:431-438): rewrite Config.wtf and report how it went. */
    method OnUpdateClicked(fs: FileSystem, writeFailure: Option<string>) returns (fs': FileSystem)
      requires Valid()
      modifies this`lastConfigPath, this`watchLog, this`audioLocale, this`textLocale, this`status
      ensures Valid()
      ensures fs' == (match UpdateConfig(fs, configPath, preferredLocale, writeFailure)
                      case Success(updated) => updated
                      case Failure(_) => fs)
      ensures status == (match UpdateConfig(fs, configPath, preferredLocale, writeFailure)
                         case Success(_) => Some(ConfigUpdated)
                         case Failure(e) => Some(UpdateErrorPrefix + ErrorMessage(e)))
      ensures UpdateConfig(fs, configPath, preferredLocale, writeFailure).Failure? ==>
        && lastConfigPath == old(lastConfigPath) && watchLog == old(watchLog)
        && audioLocale == old(audioLocale) && textLocale == old(textLocale)
      ensures UpdateConfig(fs, configPath, preferredLocale, writeFailure).Success? ==>
        && lastConfigPath == Some(configPath)
        && watchLog == old(watchLog) + (if watcherPresent then [Watch(configPath)] else [])
        && Locales(audioLocale, textLocale) == Refresh(fs', configPath)
    {
      var r;
      r, fs' := UpdateConfigFileLocales(fs, writeFailure);
      match r {
        case Success(_) => status := Some(ConfigUpdated);
        case Failure(e) => status := Some(UpdateErrorPrefix + ErrorMessage(e));
      }
    }

    /**
      The filter run on the preferred locale every frame (src/main.rs:444-462):
      the field becomes its normal form, and the status says so when a
      non-empty value had to change.
     */
    method EnforcePreferredLocale()
      requires Valid()
      modifies this`preferredLocale, this`status
      ensures Valid()
      ensures preferredLocale == Normalize(old(preferredLocale))
      ensures IsValidLocale(preferredLocale)
      ensures IsValidLocale(old(preferredLocale)) ==>
        preferredLocale == old(preferredLocale) && status == old(status)
      ensures old(preferredLocale) == "" ==> preferredLocale == DefaultLocale && status == old(status)
      ensures old(preferredLocale) != "" && Letters(old(preferredLocale)) == [] ==>
        preferredLocale == DefaultLocale && status == Some(LocaleReset)
      ensures Letters(old(preferredLocale)) != [] && !IsValidLocale(old(preferredLocale)) ==>
        status == Some(LocaleFiltered)
    {
      var original := preferredLocale;
      NormalizeIsFirstLetters(original);
      NormalizeFixesExactlyValid(original);
      TakeLettersIsPrefixOfLetters(original, MaxLocaleLength);
      var filtered := TakeLetters(original, MaxLocaleLength);
      if filtered == [] {
        preferredLocale := DefaultLocale;
        if original != [] {
          status := Some(LocaleReset);
        }
      } else if filtered != original {
        preferredLocale := filtered;
        status := Some(LocaleFiltered);
      }
    }

    /**
      The Run button (src/main.rs:583-649). It is disabled during a run; it
      starts one only when both executables exist with the `.exe` extension,
      and the run's messages then go to the channel.
     */
    method OnRunClicked(fs: FileSystem, battle: SpawnOutcome, wow: SpawnOutcome, relaunch: SpawnOutcome)
      requires Valid()
      modifies this`runActive, this`status, this`runChannel
      ensures Valid()
      ensures old(runActive) ==>
        runActive && status == old(status) && runChannel == old(runChannel)
      ensures !old(runActive) && !IsExe(fs, battleNetPath) ==>
        !runActive && status == Some(BadBattleNetPath) && runChannel == []
      ensures !old(runActive) && IsExe(fs, battleNetPath) && !IsExe(fs, wowPath) ==>
        !runActive && status == Some(BadWowPath) && runChannel == []
      ensures !old(runActive) && IsExe(fs, battleNetPath) && IsExe(fs, wowPath) ==>
        runActive && status == Some(RunStarting) && runChannel == LaunchMessages(battle, wow, relaunch)
    {
      if runActive {
        return;
      }
      if !IsExe(fs, battleNetPath) {
        status := Some(BadBattleNetPath);
      } else if !IsExe(fs, wowPath) {
        status := Some(BadWowPath);
      } else {
        runActive := true;
        status := Some(RunStarting);
        var sent := RunWorker(battle, wow, relaunch);
        StartedRunIsValid(battle, wow, relaunch);
        assert runChannel + sent == sent;
        runChannel := runChannel + sent;
      }
    }

    /**
      The drain of the run channel (src/main.rs:699-710), receiving the
      `available` messages the worker has sent so far: the status follows
      each message, and "FINISHED" ends the run.
     */
    method DrainRunMessages(available: nat)
      requires Valid()
      modifies this`runActive, this`status, this`runChannel
      ensures Valid()
      ensures var n := if available < |old(runChannel)| then available else |old(runChannel)|;
        && runChannel == old(runChannel)[n..]
        && runActive == (old(runActive) && Finished !in old(runChannel)[..n])
        && status == (if n == 0 then old(status) else Some(MessageStatus(old(runChannel)[n - 1])))
      ensures available >= |old(runChannel)| && old(runChannel) != [] ==>
        !runActive && runChannel == [] && status == Some(RunCompleted)
    {
      ghost var channel := runChannel;
      ghost var wasActive := runActive;
      var received := 0;
      while runChannel != [] && received < available
        invariant received <= |channel| && received <= available
        invariant runChannel == channel[received..]
        invariant runActive == (wasActive && Finished !in channel[..received])
        invariant status == (if received == 0 then old(status) else Some(MessageStatus(channel[received - 1])))
      {
        var message := runChannel[0];
        runChannel := runChannel[1..];
        assert channel[..received + 1] == channel[..received] + [message];
        if message == Finished {
          runActive := false;
          status := Some(RunCompleted);
        } else {
          status := Some(message);
        }
        received := received + 1;
      }
      DrainKeepsRunChannelValid(wasActive, channel, received);
    }

    /** The reload a watcher event on Config.wtf forces (src/main.rs:727-730). */
    method ReloadConfig(fs: FileSystem)
      requires Valid() && configPath != ""
      modifies this`lastConfigPath, this`watchLog, this`audioLocale, this`textLocale, this`status
      ensures Valid()
      ensures lastConfigPath == Some(configPath)
      ensures watchLog == old(watchLog) + (if watcherPresent then [Watch(configPath)] else [])
      ensures Locales(audioLocale, textLocale) == Refresh(fs, configPath)
      ensures status == Some(ConfigReloaded)
    {
      ForceRefresh(fs);
      status := Some(ConfigReloaded);
    }

    /**
      One event of the drain (src/main.rs:719-739): an error sets the status;
      a change naming the configured path forces a reload; nothing else
      changes anything.
     */
    method HandleWatchEvent(e: WatchEvent, fs: FileSystem)
      requires Valid()
      modifies this`lastConfigPath, this`watchLog, this`audioLocale, this`textLocale, this`status
      ensures Valid()
      ensures status == if EventStatus(e, configPath).Some? then EventStatus(e, configPath) else old(status)
      ensures watchLog == old(watchLog) +
        (if watcherPresent && TouchesConfig(e, configPath) then [Watch(configPath)] else [])
      ensures !TouchesConfig(e, configPath) ==>
        && lastConfigPath == old(lastConfigPath)
        && audioLocale == old(audioLocale) && textLocale == old(textLocale)
      ensures TouchesConfig(e, configPath) ==>
        && lastConfigPath == Some(configPath)
        && Locales(audioLocale, textLocale) == Refresh(fs, configPath)
    {
      match e {
        case WatchError(message) =>
          status := Some(WatcherErrorPrefix + message);
        case Event(paths) =>
          var j := 0;
          while j < |paths|
            invariant 0 <= j <= |paths|
            invariant configPath == "" || configPath !in paths[..j]
          {
            if configPath != "" && paths[j] == configPath {
              ReloadConfig(fs);
              break;
            }
            assert paths[..j + 1] == paths[..j] + [paths[j]];
            j := j + 1;
          }
          assert j == |paths| ==> paths[..j] == paths;
      }
    }

    /**
      The drain of the watcher's events (src/main.rs:713-742): an error sets
      the status, and an event naming the configured path forces a reload;
      events about other paths change nothing.
     */
    method DrainWatcherEvents(events: seq<WatchEvent>, fs: FileSystem)
      requires Valid()
      modifies this`lastConfigPath, this`watchLog, this`audioLocale, this`textLocale, this`status
      ensures Valid()
      ensures status == WatchStatus(old(status), events, configPath)
      ensures watchLog == old(watchLog) +
        (if watcherPresent then Repeat(Watch(configPath), ReloadCount(events, configPath)) else [])
      ensures ReloadCount(events, configPath) == 0 ==>
        && lastConfigPath == old(lastConfigPath)
        && audioLocale == old(audioLocale) && textLocale == old(textLocale)
      ensures ReloadCount(events, configPath) > 0 ==>
        && lastConfigPath == Some(configPath)
        && Locales(audioLocale, textLocale) == Refresh(fs, configPath)
    {
      var i := 0;
      while i < |events|
        invariant 0 <= i <= |events|
        invariant Valid()
        invariant status == WatchStatus(old(status), events[..i], configPath)
        invariant watchLog == old(watchLog) +
          (if watcherPresent then Repeat(Watch(configPath), ReloadCount(events[..i], configPath)) else [])
        invariant ReloadCount(events[..i], configPath) == 0 ==>
          && lastConfigPath == old(lastConfigPath)
          && audioLocale == old(audioLocale) && textLocale == old(textLocale)
        invariant ReloadCount(events[..i], configPath) > 0 ==>
          && lastConfigPath == Some(configPath)
          && Locales(audioLocale, textLocale) == Refresh(fs, configPath)
      {
        assert events[..i + 1][..i] == events[..i];
        ghost var before := ReloadCount(events[..i], configPath);
        HandleWatchEvent(events[i], fs);
        if TouchesConfig(events[i], configPath) {
          assert ReloadCount(events[..i + 1], configPath) == before + 1;
          RepeatSnoc(Watch(configPath), before);
        } else {
          assert ReloadCount(events[..i + 1], configPath) == before;
        }
        i := i + 1;
      }
      assert events[..|events|] == events;
    }
  }
}
