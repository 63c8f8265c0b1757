/**
  The run worker (src/main.rs:605-649): a fixed producer of status strings
  whose output depends only on what each of its three `Command::spawn`
  calls returns. Sends are appends to a sequence; the one-second pacing is
  not modelled.
 */
module LaunchSequence {

  /** What one `Command::spawn` returned: success, or the error's display text. */
  datatype SpawnOutcome = Spawned | SpawnFailed(cause: string)

  /** The last message of every run. */
  const Finished: string := "FINISHED"

  /** Seconds counted down before WoW is launched. */
  const WowDelay: nat := 10

  /** Seconds counted down before Battle.net is launched a second time. */
  const RelaunchDelay: nat := 60

  const LaunchedBattleNet: string := "Launched Battle.net"
  const LaunchedWow: string := "Launched WoW"
  const RelaunchedBattleNet: string := "Launched Battle.net (second)"
  const WowCountdownPrefix: string := "Waiting to launch WoW: "
  const RelaunchCountdownPrefix: string := "Waiting before re-launching Battle.net: "

  function BattleNetFailed(cause: string): string {
    "Failed to launch Battle.net: " + cause
  }

  function WowFailed(cause: string): string {
    "Failed to launch WoW: " + cause
  }

  function RelaunchFailed(cause: string): string {
    "Failed to launch Battle.net (second): " + cause
  }

  // ---------------------------------------------------------------- decimal numbers

  predicate IsDigit(c: char) {
    '0' <= c <= '9'
  }

  function DigitChar(d: nat): (c: char)
    requires d < 10
    ensures IsDigit(c)
  {
    ('0' as int + d) as char
  }

  /** `format!("{}", n)` for a natural number: decimal digits, no leading zero. */
  function DecimalString(n: nat): (r: string)
    ensures r != [] && forall i :: 0 <= i < |r| ==> IsDigit(r[i])
    ensures r[0] == '0' ==> n == 0
    decreases n
  {
    if n < 10 then [DigitChar(n)] else DecimalString(n / 10) + [DigitChar(n % 10)]
  }

  /** The value of a string of decimal digits. */
  function ParseDecimal(s: string): nat
    requires forall i :: 0 <= i < |s| ==> IsDigit(s[i])
    decreases |s|
  {
    if s == [] then 0
    else
      assert IsDigit(s[|s| - 1]);
      ParseDecimal(s[..|s| - 1]) * 10 + (s[|s| - 1] as int - '0' as int)
  }

  /** Reading the digits back gives the number: the formatting loses nothing. */
  lemma {:induction false} ParseDecimalString(n: nat)
    ensures ParseDecimal(DecimalString(n)) == n
    decreases n
  {
    if n >= 10 {
      var s := DecimalString(n);
      assert s[..|s| - 1] == DecimalString(n / 10);
      ParseDecimalString(n / 10);
    }
  }

  // ---------------------------------------------------------------- countdowns

  /** One countdown message: `format!("<prefix>{}s", rem)`. */
  function Tick(prefix: string, rem: nat): string {
    prefix + DecimalString(rem) + "s"
  }

  /** Two countdown messages with the same prefix are equal only for the same second. */
  lemma {:induction false} TickInjective(prefix: string, a: nat, b: nat)
    requires Tick(prefix, a) == Tick(prefix, b)
    ensures a == b
  {
    var ta, tb := Tick(prefix, a), Tick(prefix, b);
    assert ta[|prefix|..|ta| - 1] == DecimalString(a);
    assert tb[|prefix|..|tb| - 1] == DecimalString(b);
    ParseDecimalString(a);
    ParseDecimalString(b);
  }

  /**
    The messages a countdown `for rem in (lo + 1..=hi).rev()` has sent once
    it reached `lo`: the k-th one is for second `hi - k`.
   */
  function Countdown(prefix: string, hi: nat, lo: nat): (r: seq<string>)
    requires lo <= hi
    ensures |r| == hi - lo
  {
    seq(hi - lo, k requires 0 <= k < hi - lo => Tick(prefix, hi - k))
  }

  /** One more second counted down appends that second's message. */
  lemma {:induction false} CountdownStep(prefix: string, hi: nat, lo: nat)
    requires 0 < lo <= hi
    ensures Countdown(prefix, hi, lo - 1) == Countdown(prefix, hi, lo) + [Tick(prefix, lo)]
  {
    var longer, shorter := Countdown(prefix, hi, lo - 1), Countdown(prefix, hi, lo);
    assert longer[..hi - lo] == shorter;
  }

  /** The seconds strictly descend, so no countdown message repeats. */
  lemma {:induction false} CountdownDistinct(prefix: string, hi: nat, lo: nat)
    requires lo <= hi
    ensures forall i, j :: 0 <= i < j < |Countdown(prefix, hi, lo)| ==>
      Countdown(prefix, hi, lo)[i] != Countdown(prefix, hi, lo)[j]
  {
    forall i, j | 0 <= i < j < |Countdown(prefix, hi, lo)|
      ensures Countdown(prefix, hi, lo)[i] != Countdown(prefix, hi, lo)[j]
    {
      if Tick(prefix, hi - i) == Tick(prefix, hi - j) {
        TickInjective(prefix, hi - i, hi - j);
      }
    }
  }

  // ---------------------------------------------------------------- the whole run

  /** What the second `Battle.net` launch reports. */
  function RelaunchMessage(relaunch: SpawnOutcome): string {
    match relaunch
    case Spawned => RelaunchedBattleNet
    case SpawnFailed(cause) => RelaunchFailed(cause)
  }

  /** What the worker sends once WoW has launched. */
  function AfterWowLaunch(relaunch: SpawnOutcome): seq<string> {
    Countdown(RelaunchCountdownPrefix, RelaunchDelay, 0) + [RelaunchMessage(relaunch), Finished]
  }

  /** What the worker sends once Battle.net has launched. */
  function AfterBattleNetLaunch(wow: SpawnOutcome, relaunch: SpawnOutcome): seq<string> {
    Countdown(WowCountdownPrefix, WowDelay, 0) +
    match wow
    case SpawnFailed(cause) => [WowFailed(cause), Finished]
    case Spawned => [LaunchedWow] + AfterWowLaunch(relaunch)
  }

  /**
    The messages the worker sends, in order, given the three spawn outcomes.
    A failed launch of Battle.net or WoW ends the run at once; a failed
    second launch of Battle.net does not.
   */
  function LaunchMessages(battle: SpawnOutcome, wow: SpawnOutcome, relaunch: SpawnOutcome): seq<string> {
    match battle
    case SpawnFailed(cause) => [BattleNetFailed(cause), Finished]
    case Spawned => [LaunchedBattleNet] + AfterBattleNetLaunch(wow, relaunch)
  }

  /** A countdown loop `for rem in (1..=secs).rev()`, each message appended to `sent`. */
  method SendCountdown(sent: seq<string>, prefix: string, secs: nat) returns (sent': seq<string>)
    ensures sent' == sent + Countdown(prefix, secs, 0)
  {
    sent' := sent;
    var rem: nat := secs;
    while rem > 0
      invariant rem <= secs
      invariant sent' == sent + Countdown(prefix, secs, rem)
    {
      CountdownStep(prefix, secs, rem);
      sent' := sent' + [Tick(prefix, rem)];
      rem := rem - 1;
    }
  }

  /** The worker thread, its sends appended to `sent`. */
  method RunWorker(battle: SpawnOutcome, wow: SpawnOutcome, relaunch: SpawnOutcome) returns (sent: seq<string>)
    ensures sent == LaunchMessages(battle, wow, relaunch)
  {
    sent := [];
    if battle.SpawnFailed? {
      sent := sent + [BattleNetFailed(battle.cause)];
      sent := sent + [Finished];
      return;
    }
    sent := sent + [LaunchedBattleNet];
    ghost var afterBattleNet := sent;
    sent := SendCountdown(sent, WowCountdownPrefix, WowDelay);

    if wow.SpawnFailed? {
      sent := sent + [WowFailed(wow.cause)];
      sent := sent + [Finished];
      assert sent == afterBattleNet + AfterBattleNetLaunch(wow, relaunch);
      return;
    }
    sent := sent + [LaunchedWow];
    ghost var afterWow := sent;
    sent := SendCountdown(sent, RelaunchCountdownPrefix, RelaunchDelay);
    var outcome: string;
    if relaunch.SpawnFailed? {
      outcome := RelaunchFailed(relaunch.cause);
    } else {
      outcome := RelaunchedBattleNet;
    }
    sent := sent + [outcome];
    sent := sent + [Finished];
    assert outcome == RelaunchMessage(relaunch);
    assert sent == afterWow + AfterWowLaunch(relaunch);
    assert sent == afterBattleNet + AfterBattleNetLaunch(wow, relaunch);
  }

  // ---------------------------------------------------------------- properties of the run

  /** Every message other than the final one is longer than "FINISHED", so differs from it. */
  lemma {:induction false} CountdownNotFinished(prefix: string, hi: nat, lo: nat)
    requires lo <= hi && |prefix| > |Finished|
    ensures Finished !in Countdown(prefix, hi, lo)
  {
    forall k | 0 <= k < |Countdown(prefix, hi, lo)|
      ensures Countdown(prefix, hi, lo)[k] != Finished
    {
      assert Countdown(prefix, hi, lo)[k] == Tick(prefix, hi - k);
    }
  }

  /** Whatever the spawns return, the run ends with exactly one "FINISHED", as its last message. */
  lemma {:induction false} FinishedOnlyAtEnd(battle: SpawnOutcome, wow: SpawnOutcome, relaunch: SpawnOutcome)
    ensures var m := LaunchMessages(battle, wow, relaunch);
      m != [] && m[|m| - 1] == Finished && Finished !in m[..|m| - 1]
  {
    var m := LaunchMessages(battle, wow, relaunch);
    CountdownNotFinished(WowCountdownPrefix, WowDelay, 0);
    CountdownNotFinished(RelaunchCountdownPrefix, RelaunchDelay, 0);
    if battle.SpawnFailed? {
      assert |BattleNetFailed(battle.cause)| > |Finished|;
    } else {
      var wowTicks := Countdown(WowCountdownPrefix, WowDelay, 0);
      if wow.SpawnFailed? {
        assert |WowFailed(wow.cause)| > |Finished|;
        assert m[..|m| - 1] == [LaunchedBattleNet] + wowTicks + [WowFailed(wow.cause)];
      } else {
        var relaunchTicks := Countdown(RelaunchCountdownPrefix, RelaunchDelay, 0);
        assert |RelaunchMessage(relaunch)| > |Finished|;
        assert m[..|m| - 1] ==
          [LaunchedBattleNet] + wowTicks + [LaunchedWow] + relaunchTicks + [RelaunchMessage(relaunch)];
      }
    }
  }

  /** A failed first launch sends the failure and "FINISHED", and no countdown. */
  lemma {:induction false} BattleNetFailureStopsAtOnce(cause: string, wow: SpawnOutcome, relaunch: SpawnOutcome)
    ensures LaunchMessages(SpawnFailed(cause), wow, relaunch) == [BattleNetFailed(cause), Finished]
  {
  }

  /** A failed WoW launch ends the run after 13 messages, whatever the third spawn would have done. */
  lemma {:induction false} WowFailureSendsThirteen(cause: string, relaunch: SpawnOutcome)
    ensures var m := LaunchMessages(Spawned, SpawnFailed(cause), relaunch);
      |m| == 13 && m[0] == LaunchedBattleNet && m[11] == WowFailed(cause) && m[12] == Finished
      && forall k :: 1 <= k <= 10 ==> m[k] == Tick(WowCountdownPrefix, 11 - k)
  {
  }

  /**
    Once both games launch, the run sends 74 messages: Battle.net launched,
    the ten-second countdown from 10 down to 1, WoW launched, the sixty-second
    countdown from 60 down to 1, the outcome of the second launch, "FINISHED".
   */
  lemma {:induction false} FullRunOrder(relaunch: SpawnOutcome)
    ensures var m := LaunchMessages(Spawned, Spawned, relaunch);
      && |m| == 74
      && m[0] == LaunchedBattleNet
      && (forall k :: 1 <= k <= 10 ==> m[k] == Tick(WowCountdownPrefix, 11 - k))
      && m[11] == LaunchedWow
      && (forall k :: 12 <= k <= 71 ==> m[k] == Tick(RelaunchCountdownPrefix, 72 - k))
      && m[72] == RelaunchMessage(relaunch)
      && m[73] == Finished
  {
    var m := LaunchMessages(Spawned, Spawned, relaunch);
    var wowTicks := Countdown(WowCountdownPrefix, WowDelay, 0);
    var relaunchTicks := Countdown(RelaunchCountdownPrefix, RelaunchDelay, 0);
    assert m == [LaunchedBattleNet] + wowTicks + [LaunchedWow] + relaunchTicks + [RelaunchMessage(relaunch), Finished];
    forall k | 12 <= k <= 71
      ensures m[k] == Tick(RelaunchCountdownPrefix, 72 - k)
    {
      assert m[k] == relaunchTicks[k - 12];
    }
  }
}
