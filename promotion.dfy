/**
 * The promotion policy behind SkipList.prototype.random: a number of
 * promotions forced for the next insertion, the global flag that marks a
 * forced run in progress, and otherwise a coin flip.
 */
module Promotion {

  /** The state of the policy after one call, and the call's answer. */
  datatype Draw = Draw(forced: nat, flag: bool, promote: bool)

  /**
   * One call of random(): a positive forced count is spent one promotion at
   * a time and sets the flag; the call after the last forced promotion
   * answers false and clears the flag; only otherwise does the coin decide.
   */
  function RandomStep(forced: nat, flag: bool, coin: bool): (d: Draw)
    ensures forced > 0 ==> d.promote && d.flag && d.forced + 1 == forced
    ensures !d.promote ==> d.forced == 0 && !d.flag
    ensures forced == 0 && !flag ==> d == Draw(0, false, coin)
  {
    if forced > 0 then Draw(forced - 1, true, true)
    else if flag then Draw(0, false, false)
    else Draw(forced, flag, coin)
  }

  /** The coin of call number `call`: the supplied outcome, false once they run out. */
  function Coin(coins: seq<bool>, call: nat): bool
  {
    call < |coins| && coins[call]
  }

  /**
   * How many consecutive calls of random() answer true, starting from the
   * given state at call number `call`, when call number j draws
   * Coin(coins, j): the number of promotions one insertion performs.
   */
  function Promotions(forced: nat, flag: bool, coins: seq<bool>, call: nat): (n: nat)
    decreases forced + (if call < |coins| then |coins| - call else 0)
  {
    var d := RandomStep(forced, flag, Coin(coins, call));
    if d.promote then 1 + Promotions(d.forced, d.flag, coins, call + 1) else 0
  }

  /** One call of random() takes one promotion off the count still to come, or ends the run. */
  lemma PromotionsStep(forced: nat, flag: bool, coins: seq<bool>, call: nat, d: Draw)
    requires d == RandomStep(forced, flag, Coin(coins, call))
    ensures d.promote ==> Promotions(forced, flag, coins, call) == 1 + Promotions(d.forced, d.flag, coins, call + 1)
    ensures !d.promote ==> Promotions(forced, flag, coins, call) == 0 && d.forced == 0 && !d.flag
  {
  }

  /** The number of true outcomes at the front of the coin sequence. */
  function LeadingTrue(coins: seq<bool>): (n: nat)
    ensures n <= |coins|
    ensures forall j :: 0 <= j < n ==> coins[j]
    ensures n < |coins| ==> !coins[n]
  {
    if coins == [] || !coins[0] then 0 else 1 + LeadingTrue(coins[1..])
  }

  /**
   * Forced mode: with a count N > 0 the next N calls answer true and the
   * one after answers false, whatever the coins and the flag.
   */
  lemma {:induction false} ForcedPromotions(forced: nat, flag: bool, coins: seq<bool>, call: nat)
    requires forced > 0
    ensures Promotions(forced, flag, coins, call) == forced
    decreases forced
  {
    if forced > 1 {
      ForcedPromotions(forced - 1, true, coins, call + 1);
    }
  }

  /** After a forced run (flag set, count spent) the next call answers false. */
  lemma FlagStops(coins: seq<bool>, call: nat)
    ensures Promotions(0, true, coins, call) == 0
  {
  }

  /** Coin mode: the insertion promotes once per leading true coin from its first call on. */
  lemma {:induction false} CoinPromotions(coins: seq<bool>, call: nat)
    requires call <= |coins|
    ensures Promotions(0, false, coins, call) == LeadingTrue(coins[call..])
    decreases |coins| - call
  {
    if call < |coins| && coins[call] {
      CoinPromotions(coins, call + 1);
      assert coins[call..][1..] == coins[call + 1..];
    }
  }
}
