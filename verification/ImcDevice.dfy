/** One integrated memory controller: the three 16-bit DIMM words that uncore_hswep.c
    reads, modifies and writes, and the operations uncore_imc.c reaches through a table
    of functions. */
module ImcDevice {

  /** thrt_pwr_dimm_[0:2]: bit 15 enables throttling, the rest is the limit. The words
      are 16-bit numbers; masks and bit operations on them are written as arithmetic. */
  type Word = w: int | 0 <= w < 0x1_0000
  type Words = w: seq<Word> | |w| == 3 witness [0, 0, 0]

  datatype Imc = Imc(nodeid: nat, dev: nat, words: Words)

  predicate EnableBit(w: Word) { w >= 0x8000 }
  function Limit(w: Word): Word { w % 0x8000 }

  /** w & (1 << 15), w | (1 << 15) and w & ~(1 << 15). */
  function OnlyBit15(w: Word): Word { if EnableBit(w) then 0x8000 else 0 }
  function WithBit15(w: Word): Word { Limit(w) + 0x8000 }
  function WithoutBit15(w: Word): Word { Limit(w) }

  /** The limit for a requested 1/threshold of the bandwidth. */
  function Code(threshold: nat): (c: Word)
    ensures c < 0x8000
  {
    match threshold
    case 2 => 0x00ff
    case 4 => 0x007f
    case _ => 0x0fff
  }

  function Join(enable: bool, limit: Word): Word
    requires limit < 0x8000
  {
    if enable then 0x8000 + limit else limit
  }

  /** hswep_imc_set_threshold. */
  method HswepSetThreshold(words: Words, threshold: nat) returns (after: Words)
    ensures forall k :: 0 <= k < 3 ==>
      after[k] == Join(EnableBit(words[k]), Code(threshold))
    ensures forall k :: 0 <= k < 3 ==>
      && after[k] / 0x8000 == words[k] / 0x8000
      && (threshold == 2 ==> after[k] % 0x8000 == 0x00ff)
      && (threshold == 4 ==> after[k] % 0x8000 == 0x007f)
      && (threshold != 2 && threshold != 4 ==> after[k] % 0x8000 == 0x0fff)
    ensures after == Each(words, SetTo(threshold))
  {
    after := words;
    for i := 0 to 3
      invariant forall k :: 0 <= k < 3 ==>
        after[k] == if k < i then ChangeWord(words[k], SetTo(threshold)) else words[k]
    {
      var config := after[i];
      config := OnlyBit15(config);
      match threshold {
        case 2 => config := config + 0x00ff;
        case 4 => config := config + 0x007f;
        case _ => config := config + 0x0fff;
      }
      after := after[i := config];
    }
  }

  /** hswep_imc_enable_throttle. */
  method HswepEnableThrottle(words: Words) returns (after: Words)
    ensures forall k :: 0 <= k < 3 ==> after[k] == Join(true, Limit(words[k]))
    ensures forall k :: 0 <= k < 3 ==> after[k] == words[k] % 0x8000 + 0x8000
    ensures after == Each(words, TurnOn)
  {
    after := words;
    for i := 0 to 3
      invariant forall k :: 0 <= k < 3 ==> after[k] == if k < i then ChangeWord(words[k], TurnOn) else words[k]
    {
      after := after[i := WithBit15(after[i])];
    }
  }

  /** hswep_imc_disable_throttle. */
  method HswepDisableThrottle(words: Words) returns (after: Words)
    ensures forall k :: 0 <= k < 3 ==> after[k] == Join(false, Limit(words[k]))
    ensures forall k :: 0 <= k < 3 ==> after[k] == words[k] % 0x8000
    ensures after == Each(words, TurnOff)
  {
    after := words;
    for i := 0 to 3
      invariant forall k :: 0 <= k < 3 ==> after[k] == if k < i then ChangeWord(words[k], TurnOff) else words[k]
    {
      after := after[i := WithoutBit15(after[i])];
    }
  }

  // ---------- The operation table ----------

  /** What a caller can ask of one controller. */
  datatype Change = SetTo(threshold: nat) | TurnOn | TurnOff

  function ChangeWord(w: Word, change: Change): Word {
    match change
    case SetTo(t) => OnlyBit15(w) + Code(t)
    case TurnOn => WithBit15(w)
    case TurnOff => WithoutBit15(w)
  }

  /** The two halves of a word never disturb each other. */
  lemma WordHalves(w: Word, t: nat)
    ensures w == Join(EnableBit(w), Limit(w))
    ensures ChangeWord(w, SetTo(t)) == Join(EnableBit(w), Code(t))
    ensures ChangeWord(w, TurnOn) == Join(true, Limit(w))
    ensures ChangeWord(w, TurnOff) == Join(false, Limit(w))
  {
  }

  function Each(words: Words, change: Change): Words {
    [ChangeWord(words[0], change), ChangeWord(words[1], change), ChangeWord(words[2], change)]
  }

  /** struct uncore_imc_ops: each operation maps a device's words to new ones and, except
      for disabling, returns an error code. A failing one may leave anything behind. */
  datatype ImcOps = ImcOps(
    setThreshold: (Imc, nat) -> (Words, int),
    enableThrottle: Imc -> (Words, int),
    disableThrottle: Imc -> Words)

  function Changed(ops: ImcOps, imc: Imc, change: Change): Imc {
    match change
    case SetTo(t) => imc.(words := ops.setThreshold(imc, t).0)
    case TurnOn => imc.(words := ops.enableThrottle(imc).0)
    case TurnOff => imc.(words := ops.disableThrottle(imc))
  }

  function Error(ops: ImcOps, imc: Imc, change: Change): int {
    match change
    case SetTo(t) => ops.setThreshold(imc, t).1
    case TurnOn => ops.enableThrottle(imc).1
    case TurnOff => 0
  }

  predicate AllOn(imc: Imc) {
    forall k :: 0 <= k < 3 ==> EnableBit(imc.words[k])
  }

  predicate AllOff(imc: Imc) {
    forall k :: 0 <= k < 3 ==> !EnableBit(imc.words[k])
  }

  /** The only thing asked of a table: an enable that reports success has set the bit,
      and a disable clears it whatever it finds. */
  ghost predicate Lawful(ops: ImcOps) {
    && (forall imc :: ops.enableThrottle(imc).1 == 0 ==> AllOn(Changed(ops, imc, TurnOn)))
    && (forall imc :: AllOff(Changed(ops, imc, TurnOff)))
  }

  /** HSWEP_E5_IMC_OPS, whose operations never fail. */
  function HswepOps(): ImcOps {
    ImcOps((imc: Imc, t) => (Each(imc.words, SetTo(t)), 0),
           (imc: Imc) => (Each(imc.words, TurnOn), 0),
           (imc: Imc) => Each(imc.words, TurnOff))
  }

  lemma HswepIsLawful()
    ensures Lawful(HswepOps())
  {
  }
}
