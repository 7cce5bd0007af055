/**
 * The Try-My-Luck cooldown: a chat may draw once per five seconds. Instants
 * and durations are whole nanoseconds.
 */
module Cooldown {
  import opened Wrappers

  /** One second. */
  const NanosPerSecond: nat := 1_000_000_000

  /** `Duration::from_secs(5)`. */
  const Window: nat := 5_000_000_000

  /** `now.duration_since(prev)`: the time between the two, or zero if `prev` is the later one. */
  function Elapsed(prev: nat, now: nat): (d: nat)
    ensures now >= prev ==> prev + d == now
    ensures now < prev ==> d == 0
  {
    if now >= prev then now - prev else 0
  }

  /** The outcome of a check: the remaining wait when the draw is refused, and the new `last_try` map. */
  datatype Verdict = Verdict(wait: Option<nat>, lastTry: map<int, nat>)

  /**
   * The check-and-mark on `last_try`: a chat's first draw, or one at least
   * five seconds after its recorded one, is accepted and records `now`; an
   * earlier one is refused with the time left of the window and changes nothing.
   */
  function Check(lastTry: map<int, nat>, chatId: int, now: nat): (v: Verdict)
    ensures v.wait.None? <==> chatId !in lastTry || Elapsed(lastTry[chatId], now) >= Window
    ensures v.wait.None? ==> v.lastTry == lastTry[chatId := now]
    ensures v.wait.Some? ==> v.lastTry == lastTry
    ensures v.wait.Some? ==> 0 < v.wait.value <= Window
    ensures v.wait.Some? ==> v.wait.value + Elapsed(lastTry[chatId], now) == Window
  {
    if chatId in lastTry then
      var elapsed := Elapsed(lastTry[chatId], now);
      if elapsed < Window then Verdict(Some(Window - elapsed), lastTry)
      else Verdict(None, lastTry[chatId := now])
    else Verdict(None, lastTry[chatId := now])
  }

  /** `wait.as_secs().max(1)`: the whole seconds of the wait, but never 0. */
  function WaitSeconds(wait: nat): (secs: nat)
    ensures secs >= 1
    ensures wait >= NanosPerSecond ==> secs * NanosPerSecond <= wait < (secs + 1) * NanosPerSecond
    ensures wait < NanosPerSecond ==> secs == 1
    ensures wait <= Window ==> secs <= 5
  {
    var whole := wait / NanosPerSecond;
    if whole < 1 then 1 else whole
  }

  /** The wait a refused draw reports is between one and five seconds. */
  lemma ReportedWaitInRange(lastTry: map<int, nat>, chatId: int, now: nat)
    requires Check(lastTry, chatId, now).wait.Some?
    ensures 1 <= WaitSeconds(Check(lastTry, chatId, now).wait.value) <= 5
  {
  }

  /**
   * After an accepted draw at `t`, a draw at `later` is refused while less
   * than five seconds have passed, with `t + 5 s - later` left, and accepted
   * once five seconds have passed.
   */
  lemma WindowAfterAccept(lastTry: map<int, nat>, chatId: int, t: nat, later: nat)
    requires Check(lastTry, chatId, t).wait.None?
    requires later >= t
    ensures var marked := Check(lastTry, chatId, t).lastTry;
            && (Check(marked, chatId, later).wait.None? <==> later >= t + Window)
            && (later < t + Window ==> Check(marked, chatId, later).wait == Some(t + Window - later))
  {
  }
}
