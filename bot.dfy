/**
 * The draw coordinator of the bot: the Try-My-Luck and Balance buttons over
 * the shared state (`AppState`), in the order the handler runs them:
 * cooldown check-and-mark, pick, value, credit, snapshot.
 */
module Bot {
  import opened Wrappers
  import Cooldown
  import Ledger
  import Manifest
  import Prize
  import Paths
  import Text

  /** What a Try-My-Luck press produces: a wait in seconds, no image, or a prize. */
  datatype Outcome =
    | Throttled(secs: nat)
    | NoAssets
    | Won(path: string, value: int, newBalance: int)

  /** The two maps of `AppState`, as a value. */
  datatype State = State(balances: map<int, int>, lastTry: map<int, nat>)

  /**
   * One Try-My-Luck press by `chatId` at `now`, with the manifest text as
   * read and the random index. A refused press changes nothing; an accepted
   * one records `now` first, so even a press that finds no image spends the
   * window; a prize credits its value to the chat and to no other.
   */
  function Draw(s: State, chatId: int, now: nat, manifest: Option<string>, dataDir: string, idx: nat): (r: (State, Outcome))
    requires Manifest.ValidIndex(manifest, dataDir, idx)
    ensures r.1.Throttled? <==> chatId in s.lastTry && Cooldown.Elapsed(s.lastTry[chatId], now) < Cooldown.Window
    ensures r.1.Throttled? ==> r.0 == s && 1 <= r.1.secs <= 5
    ensures r.1.Throttled? ==>
              r.1.secs == Cooldown.WaitSeconds(Cooldown.Window - Cooldown.Elapsed(s.lastTry[chatId], now))
    ensures !r.1.Throttled? ==> r.0.lastTry == s.lastTry[chatId := now]
    ensures r.1.NoAssets? <==> !r.1.Throttled? && Manifest.Candidates(manifest, dataDir) == []
    ensures r.1.NoAssets? ==> r.0.balances == s.balances
    ensures r.1.Won? ==> r.1.path == Manifest.Candidates(manifest, dataDir)[idx]
    ensures r.1.Won? ==> r.1.value == Prize.ImageValue(r.1.path)
    ensures r.1.Won? ==> r.0.balances == Ledger.Credit(s.balances, chatId, r.1.value)
    ensures r.1.Won? ==> r.1.newBalance == Ledger.Get(s.balances, chatId) + r.1.value
  {
    var v := Cooldown.Check(s.lastTry, chatId, now);
    match v.wait
    case Some(wait) => (s, Throttled(Cooldown.WaitSeconds(wait)))
    case None =>
      match Manifest.RandomImagePath(manifest, dataDir, idx)
      case None => (State(s.balances, v.lastTry), NoAssets)
      case Some(path) =>
        var value := Prize.ImageValue(path);
        var balances := Ledger.Credit(s.balances, chatId, value);
        (State(balances, v.lastTry), Won(path, value, balances[chatId]))
  }

  /** The shared state of the bot: balances per chat and the time of each chat's last accepted draw. */
  class AppState {
    var balances: map<int, int>
    var lastTry: map<int, nat>

    /** The state at startup: the loaded balances and no draws yet. */
    constructor (loaded: map<int, int>)
      ensures balances == loaded && lastTry == map[]
    {
      balances := loaded;
      lastTry := map[];
    }

    /** The cooldown block of the Try-My-Luck branch: checks and, when accepted, marks `last_try`. */
    method CheckAndMark(chatId: int, now: nat) returns (wait: Option<nat>)
      modifies this`lastTry
      ensures Cooldown.Verdict(wait, lastTry) == Cooldown.Check(old(lastTry), chatId, now)
    {
      wait := None;
      if chatId in lastTry {
        var elapsed := Cooldown.Elapsed(lastTry[chatId], now);
        if elapsed < Cooldown.Window {
          wait := Some(Cooldown.Window - elapsed);
        } else {
          lastTry := lastTry[chatId := now];
        }
      } else {
        lastTry := lastTry[chatId := now];
      }
    }

    /** The credit block: adds `value` to the chat's entry (0 if new) and returns it with a copy of the map. */
    method Credit(chatId: int, value: int) returns (newBalance: int, snapshot: map<int, int>)
      modifies this`balances
      ensures balances == Ledger.Credit(old(balances), chatId, value)
      ensures newBalance == Ledger.Get(old(balances), chatId) + value
      ensures snapshot == balances
    {
      var entry := if chatId in balances then balances[chatId] else 0;
      entry := entry + value;
      balances := balances[chatId := entry];
      newBalance, snapshot := entry, balances;
    }

    /** The Balance button: the chat's stored balance, or 0; nothing changes. */
    method Balance(chatId: int) returns (balance: int)
      ensures balance == Ledger.Get(balances, chatId)
    {
      balance := if chatId in balances then balances[chatId] else 0;
    }

    /**
     * The Try-My-Luck button. On a prize it also returns the snapshot handed
     * to `save_balances`; saving it does not touch the in-memory state.
     */
    method TryMyLuck(chatId: int, now: nat, manifest: Option<string>, dataDir: string, idx: nat)
      returns (outcome: Outcome, snapshot: Option<map<int, int>>)
      requires Manifest.ValidIndex(manifest, dataDir, idx)
      modifies this
      ensures (State(balances, lastTry), outcome) == Draw(State(old(balances), old(lastTry)), chatId, now, manifest, dataDir, idx)
      ensures snapshot.Some? <==> outcome.Won?
      ensures snapshot.Some? ==> snapshot.value == balances
    {
      ghost var before := State(balances, lastTry);
      var wait := CheckAndMark(chatId, now);
      if wait.Some? {
        outcome, snapshot := Throttled(Cooldown.WaitSeconds(wait.value)), None;
        assert Draw(before, chatId, now, manifest, dataDir, idx) == (before, outcome);
        return;
      }
      ghost var marked := lastTry;
      var picked := Manifest.RandomImagePath(manifest, dataDir, idx);
      if picked.None? {
        outcome, snapshot := NoAssets, None;
        assert Draw(before, chatId, now, manifest, dataDir, idx) == (State(before.balances, marked), outcome);
        return;
      }
      var value := Prize.ImageValue(picked.value);
      var newBalance, saved := Credit(chatId, value);
      outcome, snapshot := Won(picked.value, value, newBalance), Some(saved);
      assert Cooldown.Check(before.lastTry, chatId, now) == Cooldown.Verdict(None, marked);
      assert balances == Ledger.Credit(before.balances, chatId, value) && newBalance == balances[chatId];
    }
  }

  /** A second press less than five seconds after an accepted one is throttled and leaves the balance alone. */
  lemma QuickRepeatThrottled(s: State, chatId: int, t: nat, later: nat, manifest: Option<string>, dataDir: string, i: nat, j: nat)
    requires Manifest.ValidIndex(manifest, dataDir, i) && Manifest.ValidIndex(manifest, dataDir, j)
    requires !Draw(s, chatId, t, manifest, dataDir, i).1.Throttled?
    requires t <= later < t + Cooldown.Window
    ensures var s1 := Draw(s, chatId, t, manifest, dataDir, i).0;
            && Draw(s1, chatId, later, manifest, dataDir, j).1 == Throttled(Cooldown.WaitSeconds(t + Cooldown.Window - later))
            && Draw(s1, chatId, later, manifest, dataDir, j).0 == s1
  {
  }

  /** A manifest that lists no image never pays out: every press is throttled or finds no image. */
  lemma EmptyCatalogNeverWins(s: State, chatId: int, now: nat, manifest: Option<string>, dataDir: string, idx: nat)
    requires Manifest.Candidates(manifest, dataDir) == []
    ensures !Draw(s, chatId, now, manifest, dataDir, idx).1.Won?
    ensures Draw(s, chatId, now, manifest, dataDir, idx).0.balances == s.balances
  {
  }

  /** Prizes are never negative, so a press never lowers a balance and non-negative balances stay so. */
  lemma DrawKeepsBalancesNonNegative(s: State, chatId: int, now: nat, manifest: Option<string>, dataDir: string, idx: nat, other: int)
    requires Manifest.ValidIndex(manifest, dataDir, idx)
    ensures Ledger.Get(Draw(s, chatId, now, manifest, dataDir, idx).0.balances, other) >= Ledger.Get(s.balances, other)
    ensures Ledger.NonNegative(s.balances) ==> Ledger.NonNegative(Draw(s, chatId, now, manifest, dataDir, idx).0.balances)
  {
    var r := Draw(s, chatId, now, manifest, dataDir, idx);
    if r.1.Won? {
      Ledger.CreditNeverDecreases(s.balances, chatId, r.1.value);
    }
  }

  /** Every index in the list is a valid pick. */
  predicate AllValid(manifest: Option<string>, dataDir: string, idxs: seq<nat>) {
    forall i :: 0 <= i < |idxs| ==> Manifest.ValidIndex(manifest, dataDir, idxs[i])
  }

  /** Presses by one chat at the times `times`, picking `idxs`: the final state and each outcome. */
  function Draws(s: State, chatId: int, times: seq<nat>, idxs: seq<nat>, manifest: Option<string>, dataDir: string): (r: (State, seq<Outcome>))
    requires |idxs| == |times| && AllValid(manifest, dataDir, idxs)
    ensures |r.1| == |times|
    decreases |times|
  {
    if times == [] then (s, [])
    else
      var first := Draw(s, chatId, times[0], manifest, dataDir, idxs[0]);
      var rest := Draws(first.0, chatId, times[1..], idxs[1..], manifest, dataDir);
      (rest.0, [first.1] + rest.1)
  }

  /** The sum of the values of the images at `idxs`. */
  function PrizeSum(manifest: Option<string>, dataDir: string, idxs: seq<nat>): (total: int)
    requires Manifest.Candidates(manifest, dataDir) != [] && AllValid(manifest, dataDir, idxs)
    ensures total >= 0
  {
    if idxs == [] then 0
    else Prize.ImageValue(Manifest.Candidates(manifest, dataDir)[idxs[0]]) + PrizeSum(manifest, dataDir, idxs[1..])
  }

  /** Each press is at least five seconds after the previous one. */
  predicate Spaced(times: seq<nat>) {
    forall i :: 0 <= i < |times| - 1 ==> times[i] + Cooldown.Window <= times[i + 1]
  }

  /** A press made when the window has passed, over a manifest that lists images, wins the image at `idx`. */
  lemma ReadyDrawWins(s: State, chatId: int, t: nat, idx: nat, manifest: Option<string>, dataDir: string)
    requires Manifest.ValidIndex(manifest, dataDir, idx)
    requires Manifest.Candidates(manifest, dataDir) != []
    requires chatId in s.lastTry ==> Cooldown.Elapsed(s.lastTry[chatId], t) >= Cooldown.Window
    ensures var r := Draw(s, chatId, t, manifest, dataDir, idx);
            && r.1.Won?
            && r.0.lastTry[chatId] == t
            && Ledger.Get(r.0.balances, chatId)
               == Ledger.Get(s.balances, chatId) + Prize.ImageValue(Manifest.Candidates(manifest, dataDir)[idx])
  {
  }

  /** Dropping the first press keeps the rest spaced and their picks valid. */
  lemma SpacedTail(times: seq<nat>, idxs: seq<nat>, manifest: Option<string>, dataDir: string)
    requires |idxs| == |times| && times != [] && AllValid(manifest, dataDir, idxs) && Spaced(times)
    ensures Spaced(times[1..]) && AllValid(manifest, dataDir, idxs[1..])
    ensures |times| > 1 ==> times[0] + Cooldown.Window <= times[1..][0]
  {
    var ts, picks := times[1..], idxs[1..];
    forall i | 0 <= i < |ts| - 1 ensures ts[i] + Cooldown.Window <= ts[i + 1] {
      assert ts[i] == times[i + 1] && ts[i + 1] == times[i + 2];
    }
    forall i | 0 <= i < |picks| ensures Manifest.ValidIndex(manifest, dataDir, picks[i]) {
      assert picks[i] == idxs[i + 1];
    }
  }

  /**
   * Presses by one chat spaced at least five seconds apart, the first one
   * allowed, over a manifest that lists images: every press wins.
   */
  lemma {:induction false} SpacedDrawsWin(s: State, chatId: int, times: seq<nat>, idxs: seq<nat>, manifest: Option<string>, dataDir: string)
    requires |idxs| == |times| && AllValid(manifest, dataDir, idxs)
    requires Manifest.Candidates(manifest, dataDir) != []
    requires Spaced(times)
    requires times != [] && chatId in s.lastTry ==> Cooldown.Elapsed(s.lastTry[chatId], times[0]) >= Cooldown.Window
    ensures forall i :: 0 <= i < |times| ==> Draws(s, chatId, times, idxs, manifest, dataDir).1[i].Won?
    decreases |times|
  {
    if times != [] {
      ReadyDrawWins(s, chatId, times[0], idxs[0], manifest, dataDir);
      SpacedTail(times, idxs, manifest, dataDir);
      var first := Draw(s, chatId, times[0], manifest, dataDir, idxs[0]);
      SpacedDrawsWin(first.0, chatId, times[1..], idxs[1..], manifest, dataDir);
      var all := Draws(s, chatId, times, idxs, manifest, dataDir);
      var rest := Draws(first.0, chatId, times[1..], idxs[1..], manifest, dataDir);
      assert all.1 == [first.1] + rest.1;
      forall i | 0 <= i < |times| ensures all.1[i].Won? {
        if i > 0 { assert all.1[i] == rest.1[i - 1]; }
      }
    }
  }

  /**
   * The same presses: the balance grows by exactly the sum of the prizes
   * drawn.
   */
  lemma {:induction false} SpacedDrawsSum(s: State, chatId: int, times: seq<nat>, idxs: seq<nat>, manifest: Option<string>, dataDir: string)
    requires |idxs| == |times| && AllValid(manifest, dataDir, idxs)
    requires Manifest.Candidates(manifest, dataDir) != []
    requires Spaced(times)
    requires times != [] && chatId in s.lastTry ==> Cooldown.Elapsed(s.lastTry[chatId], times[0]) >= Cooldown.Window
    ensures Ledger.Get(Draws(s, chatId, times, idxs, manifest, dataDir).0.balances, chatId)
            == Ledger.Get(s.balances, chatId) + PrizeSum(manifest, dataDir, idxs)
    decreases |times|
  {
    if times != [] {
      ReadyDrawWins(s, chatId, times[0], idxs[0], manifest, dataDir);
      SpacedTail(times, idxs, manifest, dataDir);
      var first := Draw(s, chatId, times[0], manifest, dataDir, idxs[0]);
      SpacedDrawsSum(first.0, chatId, times[1..], idxs[1..], manifest, dataDir);
      assert Draws(s, chatId, times, idxs, manifest, dataDir).0
             == Draws(first.0, chatId, times[1..], idxs[1..], manifest, dataDir).0;
      assert PrizeSum(manifest, dataDir, idxs)
             == Prize.ImageValue(Manifest.Candidates(manifest, dataDir)[idxs[0]]) + PrizeSum(manifest, dataDir, idxs[1..]);
    }
  }

  /** A manifest of one relative, usable line lists that line under the data directory. */
  lemma OneLineCatalog(line: string, dataDir: string)
    requires '\n' !in line && Text.IsTrimmed(line) && Manifest.Usable(line) && !Paths.IsAbsolute(line)
    ensures Manifest.Candidates(Some(line), dataDir) == [Paths.Join(dataDir, line)]
  {
    Text.SplitNoSep(line, '\n');
    assert Text.Lines(line) == [line];
    Text.TrimOfTrimmed(line);
    assert Manifest.Entries([line]) == [line] + Manifest.Entries([]);
    var ps := Manifest.Candidates(Some(line), dataDir);
    assert |ps| == 1 && ps[0] == Manifest.Resolve(line, dataDir);
  }

  /**
   * A chat with no balance and no draw yet, over a catalog of one image
   * worth 10: a press at 0 s wins 10 (balance 10), one at 2 s is told to
   * wait 3 seconds, one at 6 s wins 10 again (balance 20).
   */
  lemma PressesAtZeroTwoSix(chatId: int, manifest: Option<string>, dataDir: string, path: string)
    requires Manifest.Candidates(manifest, dataDir) == [path]
    requires Prize.ImageValue(path) == 10
    ensures var d1 := Draw(State(map[], map[]), chatId, 0, manifest, dataDir, 0);
            var d2 := Draw(d1.0, chatId, 2_000_000_000, manifest, dataDir, 0);
            var d3 := Draw(d2.0, chatId, 6_000_000_000, manifest, dataDir, 0);
            d1.1 == Won(path, 10, 10) && d2.1 == Throttled(3) && d3.1 == Won(path, 10, 20)
  {
  }

  /** A manifest whose one line is `YurCoin10.png`, under the data directory `data`: it lists one image, worth 10. */
  lemma ExampleCatalog()
    ensures Manifest.Candidates(Some("YurCoin10.png"), "data") == [Paths.Join("data", "YurCoin10.png")]
    ensures Prize.ImageValue(Paths.Join("data", "YurCoin10.png")) == 10
  {
    var line := "YurCoin10.png";
    assert '\n' !in line && '/' !in line;
    assert Text.IsTrimmed(line) && Manifest.Usable(line) && !Paths.IsAbsolute(line);
    OneLineCatalog(line, "data");
    Paths.FileNameOfJoin("data", line);
  }

  /** Chat 42 over a manifest whose one line is `YurCoin10.png`, under `data`: won 10 (balance 10), wait 3 seconds, won 10 (balance 20). */
  lemma Example42()
    ensures var manifest, dir := Some("YurCoin10.png"), "data";
            var path := Paths.Join(dir, "YurCoin10.png");
            var d1 := Draw(State(map[], map[]), 42, 0, manifest, dir, 0);
            var d2 := Draw(d1.0, 42, 2_000_000_000, manifest, dir, 0);
            var d3 := Draw(d2.0, 42, 6_000_000_000, manifest, dir, 0);
            d1.1 == Won(path, 10, 10) && d2.1 == Throttled(3) && d3.1 == Won(path, 10, 20)
  {
    ExampleCatalog();
    PressesAtZeroTwoSix(42, Some("YurCoin10.png"), "data", Paths.Join("data", "YurCoin10.png"));
  }
}
