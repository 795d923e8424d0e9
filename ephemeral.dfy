/** Rewriting the deprecated `ephemeral: true` reply option into the
    ephemeral message flag. */
module EphemeralFlags {
  import opened JsValues

  /** `MessageFlags.Ephemeral` (bit 6). */
  const EphemeralFlag := 64

  const TwoTo32 := 0x1_0000_0000
  const TwoTo31 := 0x8000_0000

  /** Bit 6 of a 32-bit pattern. */
  function EphemeralBit(x: int): int
    requires 0 <= x < TwoTo32
  {
    (x / EphemeralFlag) % 2
  }

  /** `x | 64` on a 32-bit pattern: bit 6 set, every other bit as it was. */
  function OrEphemeral(x: int): (r: int)
    requires 0 <= x < TwoTo32
    ensures 0 <= r < TwoTo32
    ensures EphemeralBit(r) == 1
    ensures EphemeralBit(x) == 1 ==> r == x
    ensures EphemeralBit(x) == 0 ==> r == x + EphemeralFlag
  {
    if EphemeralBit(x) == 1 then x
    else
      assert (x + EphemeralFlag) / EphemeralFlag == x / EphemeralFlag + 1;
      assert x % TwoTo32 == x;
      x + EphemeralFlag
  }

  /** `ToInt32` as `|` applies it: integers wrap modulo 2^32; `true` is 1;
      everything else counts as 0. The result is the unsigned pattern. */
  function ToInt32Pattern(v: JsValue): (r: int)
    ensures 0 <= r < TwoTo32
    ensures v.JNum? && 0 <= v.n < TwoTo32 ==> r == v.n
  {
    match v
    case JNum(n) => n % TwoTo32
    case JBool(b) => if b then 1 else 0
    case _ => 0
  }

  /** The signed number a 32-bit pattern denotes. */
  function Signed(x: int): (r: int)
    requires 0 <= x < TwoTo32
    ensures x < TwoTo31 ==> r == x
    ensures x >= TwoTo31 ==> r == x - TwoTo32
    ensures r % TwoTo32 == x
  {
    if x < TwoTo31 then x else x - TwoTo32
  }

  /** `flags = (flags || 0) | MessageFlags.Ephemeral`. */
  function WithEphemeral(flags: JsValue): (r: JsValue)
    ensures r.JNum? && -TwoTo31 <= r.n < TwoTo31
    ensures EphemeralBit(r.n % TwoTo32) == 1
  {
    var current := if Truthy(flags) then flags else JNum(0);
    JNum(Signed(OrEphemeral(ToInt32Pattern(current))))
  }

  /** `convertEphemeralToFlags`: a missing options object is returned as it
      is; otherwise a copy, with `ephemeral: true` replaced by the flag. */
  function ConvertEphemeralToFlags(options: Option<map<string, JsValue>>): (r: Option<map<string, JsValue>>)
    ensures options.None? ==> r.None?
    ensures options.Some? && !("ephemeral" in options.value && options.value["ephemeral"] == JBool(true)) ==> r == options
    ensures options.Some? && "ephemeral" in options.value && options.value["ephemeral"] == JBool(true) ==>
              r.Some? && "ephemeral" !in r.value && "flags" in r.value &&
              r.value["flags"] == WithEphemeral(Field(JObject(options.value), "flags")) &&
              forall k :: k != "ephemeral" && k != "flags" ==>
                            (k in r.value <==> k in options.value) && (k in r.value ==> r.value[k] == options.value[k])
  {
    if options.None? then options
    else
      var o := options.value;
      if "ephemeral" in o && o["ephemeral"] == JBool(true) then
        Some((o - {"ephemeral"})["flags" := WithEphemeral(Field(JObject(o), "flags"))])
      else Some(o)
  }

  /** Converting an already converted object changes nothing. */
  lemma ConvertIdempotent(options: Option<map<string, JsValue>>)
    ensures ConvertEphemeralToFlags(ConvertEphemeralToFlags(options)) == ConvertEphemeralToFlags(options)
  {
  }

  /** For a non-negative 31-bit flag word the result stays non-negative,
      gains bit 6 and otherwise equals the old word. */
  lemma FlagBitsKept(flags: int)
    requires 0 <= flags < TwoTo31
    ensures WithEphemeral(JNum(flags)).n == OrEphemeral(flags)
    ensures WithEphemeral(JNum(flags)).n >= flags
    ensures WithEphemeral(JNum(flags)).n - flags == if EphemeralBit(flags) == 1 then 0 else EphemeralFlag
  {
    if EphemeralBit(flags) == 0 {
      assert (flags + EphemeralFlag) < TwoTo31 by {
        assert flags / EphemeralFlag < TwoTo31 / EphemeralFlag;
        assert (flags / EphemeralFlag) % 2 == 0;
        assert flags / EphemeralFlag <= TwoTo31 / EphemeralFlag - 2;
      }
    }
  }

  /** Adding the flag twice is adding it once. */
  lemma WithEphemeralIdempotent(flags: JsValue)
    ensures WithEphemeral(WithEphemeral(flags)) == WithEphemeral(flags)
  {
    var once := WithEphemeral(flags);
    var p := OrEphemeral(ToInt32Pattern(if Truthy(flags) then flags else JNum(0)));
    assert Truthy(once) by {
      assert p != 0;
    }
    assert ToInt32Pattern(once) == p;
  }
}
