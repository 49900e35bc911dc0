/** The alert-style view of the notification flags (NCutil.py): the flag
    masks, reading a style off a flags value (`get_alert_style`) and writing
    one into it (`set_alert`). */
module AlertFlags {
  import opened FlagBits
  import opened Wrappers

  // The flags are one-bit masks `1 << k`; bits 5-11 and 15 have no known meaning.
  const SHOW_IN_CENTER: nat := Pow2(0)
  const BADGE_ICONS: nat := Pow2(1)
  const SOUNDS: nat := Pow2(2)
  const BANNER_STYLE: nat := Pow2(3)
  const ALERT_STYLE: nat := Pow2(4)
  const UNKNOWN_5: nat := Pow2(5)
  const UNKNOWN_6: nat := Pow2(6)
  const UNKNOWN_7: nat := Pow2(7)
  const UNKNOWN_8: nat := Pow2(8)
  const UNKNOWN_9: nat := Pow2(9)
  const UNKNOWN_10: nat := Pow2(10)
  const UNKNOWN_11: nat := Pow2(11)
  const SHOW_ON_LOCKSCREEN: nat := Pow2(12)
  const SHOW_PREVIEWS_ALWAYS: nat := Pow2(13)
  const SHOW_PREVIEWS_WHEN_UNLOCKED: nat := Pow2(14)
  const UNKNOWN_15: nat := Pow2(15)

  /** The three notification styles the tool knows: "none", "banners", "alerts". */
  datatype Style = NoStyle | Banners | Alerts

  /** The command-line token of a style. */
  function StyleName(st: Style): (s: string)
    ensures ParseStyle(s) == Some(st)
  {
    match st
    case NoStyle => "none"
    case Banners => "banners"
    case Alerts => "alerts"
  }

  /** The check `style not in ['none', 'alerts', 'banners']`: Nothing for any other token. */
  function ParseStyle(s: string): (r: Option<Style>)
    ensures r.Some? <==> s in ["none", "alerts", "banners"]
  {
    if s == "none" then Some(NoStyle)
    else if s == "alerts" then Some(Alerts)
    else if s == "banners" then Some(Banners)
    else Nothing
  }

  /** Only the three style names are accepted, and each names its own style. */
  lemma ParseStyleExactly(s: string)
    ensures ParseStyle(s).Some? <==> s == "none" || s == "alerts" || s == "banners"
    ensures ParseStyle(s).Some? ==> StyleName(ParseStyle(s).value) == s
  {
  }

  /** Reading the style: the alert bit is tested before the banner bit. */
  function DecodeStyle(flags: nat): (st: Style)
    ensures st == Alerts <==> Bit(flags, 4)
    ensures st == Banners <==> !Bit(flags, 4) && Bit(flags, 3)
    ensures st == NoStyle <==> !Bit(flags, 4) && !Bit(flags, 3)
  {
    AndPow2(flags, 4);
    AndPow2(flags, 3);
    if And(flags, ALERT_STYLE) != 0 then Alerts
    else if And(flags, BANNER_STYLE) != 0 then Banners
    else NoStyle
  }

  /** Writing the style: clear both style bits, then set the one the style
      asks for, so that the alert bit is set exactly for alerts and the banner
      bit exactly for banners. */
  function EncodeStyle(flags: nat, st: Style): (r: nat)
    ensures Bit(r, 4) <==> st == Alerts
    ensures Bit(r, 3) <==> st == Banners
  {
    var mask := Or(BANNER_STYLE, ALERT_STYLE);
    var cleared := AndNot(flags, mask);
    BitOfAndNot(flags, mask, 3);
    BitOfAndNot(flags, mask, 4);
    BitOfOr(BANNER_STYLE, ALERT_STYLE, 3);
    BitOfOr(BANNER_STYLE, ALERT_STYLE, 4);
    BitOfPow2(3, 3);
    BitOfPow2(3, 4);
    BitOfPow2(4, 3);
    BitOfPow2(4, 4);
    match st
    case Alerts =>
      BitOfOr(cleared, ALERT_STYLE, 3);
      BitOfOr(cleared, ALERT_STYLE, 4);
      Or(cleared, ALERT_STYLE)
    case Banners =>
      BitOfOr(cleared, BANNER_STYLE, 3);
      BitOfOr(cleared, BANNER_STYLE, 4);
      Or(cleared, BANNER_STYLE)
    case NoStyle => cleared
  }

  /** Bit by bit, encoding sets bit 4 only for alerts, bit 3 only for banners,
      and leaves every other bit as it was. */
  lemma EncodeStyleBits(flags: nat, st: Style, k: nat)
    ensures Bit(EncodeStyle(flags, st), k) <==>
      if k == 4 then st == Alerts
      else if k == 3 then st == Banners
      else Bit(flags, k)
  {
    var mask := Or(BANNER_STYLE, ALERT_STYLE);
    var cleared := AndNot(flags, mask);
    BitOfAndNot(flags, mask, k);
    BitOfOr(BANNER_STYLE, ALERT_STYLE, k);
    BitOfPow2(3, k);
    BitOfPow2(4, k);
    match st
    case Alerts => BitOfOr(cleared, ALERT_STYLE, k);
    case Banners => BitOfOr(cleared, BANNER_STYLE, k);
    case NoStyle =>
  }

  /** Round trip: the style read back from the encoded flags is the one written. */
  lemma DecodeEncode(flags: nat, st: Style)
    ensures DecodeStyle(EncodeStyle(flags, st)) == st
  {
    EncodeStyleBits(flags, st, 3);
    EncodeStyleBits(flags, st, 4);
  }

  /** Encoding leaves the value alone exactly when its style bits already say st
      (so `set_alert` skips the write, as `new_flags != current_flags` is false). */
  lemma EncodeUnchanged(flags: nat, st: Style)
    ensures EncodeStyle(flags, st) == flags <==>
      (Bit(flags, 4) <==> st == Alerts) && (Bit(flags, 3) <==> st == Banners)
  {
    EncodeStyleBits(flags, st, 3);
    EncodeStyleBits(flags, st, 4);
    if (Bit(flags, 4) <==> st == Alerts) && (Bit(flags, 3) <==> st == Banners) {
      forall k: nat ensures Bit(EncodeStyle(flags, st), k) <==> Bit(flags, k) {
        EncodeStyleBits(flags, st, k);
      }
      BitsDetermine(EncodeStyle(flags, st), flags);
    }
  }

  /** Encoding twice with the same style is encoding once. */
  lemma EncodeIdempotent(flags: nat, st: Style)
    ensures EncodeStyle(EncodeStyle(flags, st), st) == EncodeStyle(flags, st)
  {
    EncodeStyleBits(flags, st, 3);
    EncodeStyleBits(flags, st, 4);
    EncodeUnchanged(EncodeStyle(flags, st), st);
  }

  /** Encoding preserves everything outside the two style bits:
      `encode(F, S) & ~0b11000 == F & ~0b11000`. */
  lemma EncodeKeepsOtherBits(flags: nat, st: Style)
    ensures AndNot(EncodeStyle(flags, st), 24) == AndNot(flags, 24)
  {
    assert Or(8, 16) == 24;
    forall k: nat ensures Bit(AndNot(EncodeStyle(flags, st), 24), k) <==> Bit(AndNot(flags, 24), k) {
      BitOfAndNot(EncodeStyle(flags, st), 24, k);
      BitOfAndNot(flags, 24, k);
      BitOfOr(8, 16, k);
      BitOfPow2(3, k);
      BitOfPow2(4, k);
      EncodeStyleBits(flags, st, k);
    }
    BitsDetermine(AndNot(EncodeStyle(flags, st), 24), AndNot(flags, 24));
  }

  /** Each flag constant is a one-bit mask: exactly bit k is set in `1 << k`. */
  lemma FlagMasks()
    ensures forall k: nat :: Bit(SHOW_IN_CENTER, k) <==> k == 0
    ensures forall k: nat :: Bit(BADGE_ICONS, k) <==> k == 1
    ensures forall k: nat :: Bit(SOUNDS, k) <==> k == 2
    ensures forall k: nat :: Bit(BANNER_STYLE, k) <==> k == 3
    ensures forall k: nat :: Bit(ALERT_STYLE, k) <==> k == 4
    ensures forall k: nat :: Bit(UNKNOWN_5, k) <==> k == 5
    ensures forall k: nat :: Bit(UNKNOWN_6, k) <==> k == 6
    ensures forall k: nat :: Bit(UNKNOWN_7, k) <==> k == 7
    ensures forall k: nat :: Bit(UNKNOWN_8, k) <==> k == 8
    ensures forall k: nat :: Bit(UNKNOWN_9, k) <==> k == 9
    ensures forall k: nat :: Bit(UNKNOWN_10, k) <==> k == 10
    ensures forall k: nat :: Bit(UNKNOWN_11, k) <==> k == 11
    ensures forall k: nat :: Bit(SHOW_ON_LOCKSCREEN, k) <==> k == 12
    ensures forall k: nat :: Bit(SHOW_PREVIEWS_ALWAYS, k) <==> k == 13
    ensures forall k: nat :: Bit(SHOW_PREVIEWS_WHEN_UNLOCKED, k) <==> k == 14
    ensures forall k: nat :: Bit(UNKNOWN_15, k) <==> k == 15
  {
    forall j: nat, k: nat | j < 16 ensures Bit(Pow2(j), k) <==> j == k {
      BitOfPow2(j, k);
    }
  }

  /** The masks involved, as numbers: 8, 16 and 8 | 16 == 24. */
  lemma StyleMaskValues()
    ensures BANNER_STYLE == 8 && ALERT_STYLE == 16 && Or(BANNER_STYLE, ALERT_STYLE) == 24
  {
    assert Or(2, 4) == 6 by { assert Or(1, 2) == 3; }
  }

  /** Two concrete encodings: alerts written into 0, and none written into 0b11000. */
  lemma EncodeSamples()
    ensures EncodeStyle(0, Alerts) == 16
    ensures EncodeStyle(24, NoStyle) == 0
  {
    StyleMaskValues();
    assert AndNot(0, 24) == 0;
    assert Or(0, 16) == 16;
    assert AndNot(24, 24) == 0 by {
      assert AndNot(3, 3) == 0 by { assert AndNot(1, 1) == 0; }
    }
  }

  /** A 16-bit flags value stays a 16-bit value. */
  lemma EncodeStays16Bit(flags: nat, st: Style)
    requires flags < Pow2(16)
    ensures EncodeStyle(flags, st) < Pow2(16)
  {
    var cleared := AndNot(flags, Or(BANNER_STYLE, ALERT_STYLE));
    AndNotAtMost(flags, Or(BANNER_STYLE, ALERT_STYLE));
    assert Pow2(16) == 65536;
    OrBelow(cleared, ALERT_STYLE, 16);
    OrBelow(cleared, BANNER_STYLE, 16);
  }
}
