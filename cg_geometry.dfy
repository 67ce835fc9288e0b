/**
 * `CGPoint`, `CGSize` and `CGRect`: how each crosses the guest register
 * boundary (`GuestArg`: `REG_COUNT`, `from_regs`, `to_regs`) and its text
 * form (`FromStr` / `Display`, the grammar `{x, y}` and `{{x, y}, {w, h}}`).
 *
 * A `CGFloat` is an `f32`; the model keeps only its 32-bit pattern, which is
 * what a register holds. Turning one float into text and back is floating
 * point and is left as a parameter, `FieldCodec`, whose properties the
 * lemmas name as assumptions.
 */
module CGGeometry {
  import opened Guest
  import opened StrOps

  /** An `f32` seen as its IEEE-754 bit pattern. */
  datatype CGFloat = CGFloat(bits: Word)

  datatype CGPoint = CGPoint(x: CGFloat, y: CGFloat)
  datatype CGSize = CGSize(width: CGFloat, height: CGFloat)
  datatype CGRect = CGRect(origin: CGPoint, size: CGSize)

  // ---------------------------------------------------------------------
  // Register marshaling
  // ---------------------------------------------------------------------

  const FLOAT_REG_COUNT: nat := 1
  const POINT_REG_COUNT: nat := 2
  const SIZE_REG_COUNT: nat := 2
  const RECT_REG_COUNT: nat := 4

  /** `f32::from_regs`: the float whose bits are in the first register. */
  function FloatFromRegs(regs: seq<Word>): (f: CGFloat)
    requires |regs| >= FLOAT_REG_COUNT
    ensures f.bits == regs[0]
  {
    CGFloat(regs[0])
  }

  /** `CGPoint::from_regs`: x from register 0, y from register 1. */
  function PointFromRegs(regs: seq<Word>): (p: CGPoint)
    requires |regs| >= POINT_REG_COUNT
    ensures p.x.bits == regs[0] && p.y.bits == regs[1]
  {
    CGPoint(FloatFromRegs(regs[0..1]), FloatFromRegs(regs[1..2]))
  }

  /** `CGSize::from_regs`: width from register 0, height from register 1. */
  function SizeFromRegs(regs: seq<Word>): (s: CGSize)
    requires |regs| >= SIZE_REG_COUNT
    ensures s.width.bits == regs[0] && s.height.bits == regs[1]
  {
    CGSize(FloatFromRegs(regs[0..1]), FloatFromRegs(regs[1..2]))
  }

  /** `CGRect::from_regs`: the origin from registers 0..2, the size from 2..4. */
  function RectFromRegs(regs: seq<Word>): (r: CGRect)
    requires |regs| >= RECT_REG_COUNT
    ensures r.origin.x.bits == regs[0] && r.origin.y.bits == regs[1]
    ensures r.size.width.bits == regs[2] && r.size.height.bits == regs[3]
  {
    CGRect(PointFromRegs(regs[0..2]), SizeFromRegs(regs[2..4]))
  }

  /** The registers `f32::to_regs` fills: exactly the float's bits. */
  function FloatRegs(f: CGFloat): (regs: seq<Word>)
    ensures |regs| == FLOAT_REG_COUNT && FloatFromRegs(regs) == f
  {
    [f.bits]
  }

  /** The registers `CGPoint::to_regs` fills; reading them back gives the point. */
  function PointRegs(p: CGPoint): (regs: seq<Word>)
    ensures |regs| == POINT_REG_COUNT && PointFromRegs(regs) == p
  {
    FloatRegs(p.x) + FloatRegs(p.y)
  }

  /** The registers `CGSize::to_regs` fills; reading them back gives the size. */
  function SizeRegs(s: CGSize): (regs: seq<Word>)
    ensures |regs| == SIZE_REG_COUNT && SizeFromRegs(regs) == s
  {
    FloatRegs(s.width) + FloatRegs(s.height)
  }

  /**
   * The registers `CGRect::to_regs` fills: as many as a point and a size
   * together, the origin's before the size's; reading them back gives the
   * rectangle.
   */
  function RectRegs(r: CGRect): (regs: seq<Word>)
    ensures |regs| == RECT_REG_COUNT == POINT_REG_COUNT + SIZE_REG_COUNT
    ensures regs[..POINT_REG_COUNT] == PointRegs(r.origin)
    ensures regs[POINT_REG_COUNT..] == SizeRegs(r.size)
    ensures RectFromRegs(regs) == r
  {
    var regs := PointRegs(r.origin) + SizeRegs(r.size);
    assert regs[0..2] == PointRegs(r.origin);
    assert regs[2..4] == SizeRegs(r.size);
    regs
  }

  /** The other direction of the round trip: registers to a rectangle and back lose nothing. */
  lemma RectRegsFromRegs(regs: seq<Word>)
    requires |regs| == RECT_REG_COUNT
    ensures RectRegs(RectFromRegs(regs)) == regs
  {
    var r := RectFromRegs(regs);
    assert PointRegs(r.origin) == regs[..2];
    assert SizeRegs(r.size) == regs[2..];
  }

  /** Registers to a point and back lose nothing. */
  lemma PointRegsFromRegs(regs: seq<Word>)
    requires |regs| == POINT_REG_COUNT
    ensures PointRegs(PointFromRegs(regs)) == regs
  {
  }

  /** Registers to a size and back lose nothing. */
  lemma SizeRegsFromRegs(regs: seq<Word>)
    requires |regs| == SIZE_REG_COUNT
    ensures SizeRegs(SizeFromRegs(regs)) == regs
  {
  }

  /**
   * `buf` with the slots from `lo` on replaced by `vals`: what a register
   * buffer holds after a value is written into its slice starting at `lo`.
   */
  function Spliced(buf: seq<Word>, lo: nat, vals: seq<Word>): (r: seq<Word>)
    requires lo + |vals| <= |buf|
    ensures |r| == |buf| && r[lo..lo + |vals|] == vals
    ensures forall i :: 0 <= i < |buf| && !(lo <= i < lo + |vals|) ==> r[i] == buf[i]
  {
    buf[..lo] + vals + buf[lo + |vals|..]
  }

  /** Writing `a` and then `b` right after it is writing `a + b`. */
  lemma SplicedTwice(s: seq<Word>, lo: nat, a: seq<Word>, b: seq<Word>)
    requires lo + |a| + |b| <= |s|
    ensures Spliced(Spliced(s, lo, a), lo + |a|, b) == Spliced(s, lo, a + b)
  {
    var l := Spliced(Spliced(s, lo, a), lo + |a|, b);
    var r := Spliced(s, lo, a + b);
    assert |l| == |r|;
    forall i | 0 <= i < |l|
      ensures l[i] == r[i]
    {
      if lo <= i < lo + |a| {
        assert l[i] == Spliced(s, lo, a)[i] == a[i - lo];
        assert r[i] == (a + b)[i - lo];
      } else if lo + |a| <= i < lo + |a| + |b| {
        assert l[i] == b[i - lo - |a|];
        assert r[i] == (a + b)[i - lo];
      }
    }
  }

  /** `f32::to_regs` into the slice of `regs` that starts at `lo`. */
  method FloatToRegs(f: CGFloat, regs: array<Word>, lo: nat)
    requires lo + FLOAT_REG_COUNT <= regs.Length
    modifies regs
    ensures regs[..] == Spliced(old(regs[..]), lo, FloatRegs(f))
  {
    regs[lo] := f.bits;
  }

  /**
   * `CGPoint::to_regs`: x into slot `lo`, y into slot `lo + 1`, and no other
   * slot of `regs` changes.
   */
  method PointToRegs(p: CGPoint, regs: array<Word>, lo: nat)
    requires lo + POINT_REG_COUNT <= regs.Length
    modifies regs
    ensures regs[..] == Spliced(old(regs[..]), lo, PointRegs(p))
  {
    FloatToRegs(p.x, regs, lo);
    FloatToRegs(p.y, regs, lo + 1);
    SplicedTwice(old(regs[..]), lo, FloatRegs(p.x), FloatRegs(p.y));
  }

  /**
   * `CGSize::to_regs`: width into slot `lo`, height into slot `lo + 1`, and
   * no other slot of `regs` changes.
   */
  method SizeToRegs(s: CGSize, regs: array<Word>, lo: nat)
    requires lo + SIZE_REG_COUNT <= regs.Length
    modifies regs
    ensures regs[..] == Spliced(old(regs[..]), lo, SizeRegs(s))
  {
    FloatToRegs(s.width, regs, lo);
    FloatToRegs(s.height, regs, lo + 1);
    SplicedTwice(old(regs[..]), lo, FloatRegs(s.width), FloatRegs(s.height));
  }

  /**
   * `CGRect::to_regs`: the origin into slots `lo..lo+2`, the size into
   * `lo+2..lo+4`, and no other slot of `regs` changes.
   */
  method RectToRegs(r: CGRect, regs: array<Word>, lo: nat)
    requires lo + RECT_REG_COUNT <= regs.Length
    modifies regs
    ensures regs[..] == Spliced(old(regs[..]), lo, RectRegs(r))
  {
    PointToRegs(r.origin, regs, lo);
    SizeToRegs(r.size, regs, lo + 2);
    SplicedTwice(old(regs[..]), lo, PointRegs(r.origin), SizeRegs(r.size));
  }

  /** What a caller reads back after `to_regs` is the value it wrote. */
  method RectRegsRoundTrip(r: CGRect, regs: array<Word>, lo: nat) returns (back: CGRect)
    requires lo + RECT_REG_COUNT <= regs.Length
    modifies regs
    ensures back == r
    ensures forall i :: 0 <= i < regs.Length && !(lo <= i < lo + RECT_REG_COUNT) ==> regs[i] == old(regs[i])
  {
    RectToRegs(r, regs, lo);
    back := RectFromRegs(regs[lo..lo + RECT_REG_COUNT]);
  }

  // ---------------------------------------------------------------------
  // Text form
  // ---------------------------------------------------------------------

  /**
   * How one `CGFloat` field is read from text (`f32::parse`, None where it
   * fails) and written as text (`f32`'s `Display`).
   */
  datatype FieldCodec = FieldCodec(parse: string -> Option<CGFloat>, show: CGFloat -> string)

  /** Every text that parses as a field is the way that field is written. */
  ghost predicate Canonical(c: FieldCodec) {
    forall t :: c.parse(t).Some? ==> c.show(c.parse(t).value) == t
  }

  /** Text with none of the grammar's own characters `,` `{` `}` in it. */
  predicate Plain(t: string) {
    forall k :: 0 <= k < |t| ==> t[k] != ',' && t[k] != '{' && t[k] != '}'
  }

  /**
   * The field `f` written as text parses back to itself, and its text holds
   * no character of the grammar.
   */
  predicate FieldRoundTrips(c: FieldCodec, f: CGFloat) {
    c.parse(c.show(f)) == Some(f) && Plain(c.show(f))
  }

  /** `parse_tuple`: split at the first `", "`, then parse both halves. */
  function ParseTuple(c: FieldCodec, s: string): Option<(CGFloat, CGFloat)> {
    match SplitOnce(s, ", ")
    case None => None
    case Some((a, b)) =>
      match (c.parse(a), c.parse(b))
      case (Some(x), Some(y)) => Some((x, y))
      case _ => None
  }

  /** `CGPoint::from_str`: strip `{` and `}`, then `parse_tuple`. */
  function PointFromStr(c: FieldCodec, s: string): Option<CGPoint> {
    match StripPrefix(s, "{")
    case None => None
    case Some(s1) =>
      match StripSuffix(s1, "}")
      case None => None
      case Some(s2) =>
        match ParseTuple(c, s2)
        case None => None
        case Some((x, y)) => Some(CGPoint(x, y))
  }

  /** `CGSize::from_str`: strip `{` and `}`, then `parse_tuple`. */
  function SizeFromStr(c: FieldCodec, s: string): Option<CGSize> {
    match StripPrefix(s, "{")
    case None => None
    case Some(s1) =>
      match StripSuffix(s1, "}")
      case None => None
      case Some(s2) =>
        match ParseTuple(c, s2)
        case None => None
        case Some((w, h)) => Some(CGSize(w, h))
  }

  /**
   * `CGRect::from_str`: strip `{{` and `}}`, split at the first `}, {`, and
   * `parse_tuple` each half.
   */
  function RectFromStr(c: FieldCodec, s: string): Option<CGRect> {
    match StripPrefix(s, "{{")
    case None => None
    case Some(s1) =>
      match StripSuffix(s1, "}}")
      case None => None
      case Some(s2) =>
        match SplitOnce(s2, "}, {")
        case None => None
        case Some((a, b)) =>
          match (ParseTuple(c, a), ParseTuple(c, b))
          case (Some((x, y)), Some((w, h))) => Some(CGRect(CGPoint(x, y), CGSize(w, h)))
          case _ => None
  }

  /** `CGPoint`'s `Display`: `{x, y}`. */
  function PointToString(c: FieldCodec, p: CGPoint): string {
    "{" + c.show(p.x) + ", " + c.show(p.y) + "}"
  }

  /** `CGSize`'s `Display`: `{width, height}`. */
  function SizeToString(c: FieldCodec, s: CGSize): string {
    "{" + c.show(s.width) + ", " + c.show(s.height) + "}"
  }

  /** `CGRect`'s `Display`: `{` origin `, ` size `}`, that is `{{x, y}, {w, h}}`. */
  function RectToString(c: FieldCodec, r: CGRect): string {
    "{" + PointToString(c, r.origin) + ", " + SizeToString(c, r.size) + "}"
  }

  /** A `{a, b}` pair whose first field holds no `,` parses field by field. */
  lemma ParseTupleOf(c: FieldCodec, a: string, b: string)
    requires forall k :: 0 <= k < |a| ==> a[k] != ','
    ensures ParseTuple(c, a + ", " + b) ==
      match (c.parse(a), c.parse(b))
      case (Some(x), Some(y)) => Some((x, y))
      case _ => None
  {
    NoOccurrenceInside(a, ", ", b);
    SplitOnceAt(a, ", ", b);
  }

  /** Text `parse_tuple` accepts is its two fields around the first `", "`. */
  lemma ParseTupleShape(c: FieldCodec, s: string)
    requires Canonical(c) && ParseTuple(c, s).Some?
    ensures s == c.show(ParseTuple(c, s).value.0) + ", " + c.show(ParseTuple(c, s).value.1)
  {
    var (a, b) := SplitOnce(s, ", ").value;
    assert c.parse(a).Some? && c.parse(b).Some?;
  }

  /** Stripping one character from each end of `"{" + m + "}"` gives `m`. */
  lemma Unbrace(m: string)
    ensures StripPrefix("{" + m + "}", "{") == Some(m + "}")
    ensures StripSuffix(m + "}", "}") == Some(m)
  {
    assert ("{" + m + "}")[..1] == "{";
    assert ("{" + m + "}")[1..] == m + "}";
    assert (m + "}")[|m|..] == "}";
    assert (m + "}")[..|m|] == m;
  }

  /** Stripping two characters from each end of `"{{" + m + "}}"` gives `m`. */
  lemma Unbrace2(m: string)
    ensures StripPrefix("{{" + m + "}}", "{{") == Some(m + "}}")
    ensures StripSuffix(m + "}}", "}}") == Some(m)
  {
    assert ("{{" + m + "}}")[..2] == "{{";
    assert ("{{" + m + "}}")[2..] == m + "}}";
    assert (m + "}}")[|m|..] == "}}";
    assert (m + "}}")[..|m|] == m;
  }

  /** Round trip: a formatted point parses back to the same point. */
  lemma PointRoundTrip(c: FieldCodec, p: CGPoint)
    requires FieldRoundTrips(c, p.x) && FieldRoundTrips(c, p.y)
    ensures PointFromStr(c, PointToString(c, p)) == Some(p)
  {
    var a, b := c.show(p.x), c.show(p.y);
    assert PointToString(c, p) == "{" + (a + ", " + b) + "}";
    Unbrace(a + ", " + b);
    ParseTupleOf(c, a, b);
  }

  /** Round trip: a formatted size parses back to the same size. */
  lemma SizeRoundTrip(c: FieldCodec, s: CGSize)
    requires FieldRoundTrips(c, s.width) && FieldRoundTrips(c, s.height)
    ensures SizeFromStr(c, SizeToString(c, s)) == Some(s)
  {
    var a, b := c.show(s.width), c.show(s.height);
    assert SizeToString(c, s) == "{" + (a + ", " + b) + "}";
    Unbrace(a + ", " + b);
    ParseTupleOf(c, a, b);
  }

  /** Round trip: a formatted rectangle parses back to the same rectangle. */
  lemma RectRoundTrip(c: FieldCodec, r: CGRect)
    requires FieldRoundTrips(c, r.origin.x) && FieldRoundTrips(c, r.origin.y)
    requires FieldRoundTrips(c, r.size.width) && FieldRoundTrips(c, r.size.height)
    ensures RectFromStr(c, RectToString(c, r)) == Some(r)
  {
    var x, y := c.show(r.origin.x), c.show(r.origin.y);
    var w, h := c.show(r.size.width), c.show(r.size.height);
    var A, B := x + ", " + y, w + ", " + h;
    RectText(x, y, w, h);
    Unbrace2(A + "}, {" + B);
    assert forall k :: 0 <= k < |A| ==> A[k] != '}' by {
      forall k | 0 <= k < |A| ensures A[k] != '}' {
        if k < |x| { assert A[k] == x[k]; }
        else if k >= |x| + 2 { assert A[k] == y[k - |x| - 2]; }
      }
    }
    NoOccurrenceInside(A, "}, {", B);
    SplitOnceAt(A, "}, {", B);
    ParseTupleOf(c, x, y);
    ParseTupleOf(c, w, h);
  }

  /**
   * The other round trip: with canonical field text, text that parses as a
   * point is exactly how that point is formatted.
   */
  lemma PointParseFormat(c: FieldCodec, s: string)
    requires Canonical(c) && PointFromStr(c, s).Some?
    ensures PointToString(c, PointFromStr(c, s).value) == s
  {
    var s2 := StripSuffix(StripPrefix(s, "{").value, "}").value;
    ParseTupleShape(c, s2);
  }

  /** With canonical field text, text that parses as a size is exactly how that size is formatted. */
  lemma SizeParseFormat(c: FieldCodec, s: string)
    requires Canonical(c) && SizeFromStr(c, s).Some?
    ensures SizeToString(c, SizeFromStr(c, s).value) == s
  {
    var s2 := StripSuffix(StripPrefix(s, "{").value, "}").value;
    ParseTupleShape(c, s2);
  }

  /** With canonical field text, text that parses as a rectangle is exactly how that rectangle is formatted. */
  lemma RectParseFormat(c: FieldCodec, s: string)
    requires Canonical(c) && RectFromStr(c, s).Some?
    ensures RectToString(c, RectFromStr(c, s).value) == s
  {
    var s1 := StripPrefix(s, "{{").value;
    var s2 := StripSuffix(s1, "}}").value;
    var (a, b) := SplitOnce(s2, "}, {").value;
    ParseTupleShape(c, a);
    ParseTupleShape(c, b);
    var r := RectFromStr(c, s).value;
    assert s == "{{" + (a + "}, {" + b) + "}}";
    RectText(c.show(r.origin.x), c.show(r.origin.y), c.show(r.size.width), c.show(r.size.height));
  }

  /** `{` point `, ` size `}` spelled out: `{{` fields `}, {` fields `}}`. */
  lemma RectText(x: string, y: string, w: string, h: string)
    ensures "{" + ("{" + x + ", " + y + "}") + ", " + ("{" + w + ", " + h + "}") + "}" ==
            "{{" + ((x + ", " + y) + "}, {" + (w + ", " + h)) + "}}"
  {
    assert "{{" == "{" + "{";
    assert "}, {" == "}" + ", " + "{";
    assert "}}" == "}" + "}";
  }

  /**
   * Point and size text is rejected when the braces are missing, when the
   * inside has no `", "`, or when a field does not parse.
   */
  lemma PointParseRejects(c: FieldCodec, s: string)
    ensures !(|s| >= 2 && s[0] == '{' && s[|s| - 1] == '}') ==>
      PointFromStr(c, s) == None && SizeFromStr(c, s) == None
    ensures |s| >= 2 && s[0] == '{' && s[|s| - 1] == '}' && SplitOnce(s[1..|s| - 1], ", ").None? ==>
      PointFromStr(c, s) == None && SizeFromStr(c, s) == None
    ensures (|s| >= 2 && s[0] == '{' && s[|s| - 1] == '}' && SplitOnce(s[1..|s| - 1], ", ").Some? &&
             (c.parse(SplitOnce(s[1..|s| - 1], ", ").value.0).None? ||
              c.parse(SplitOnce(s[1..|s| - 1], ", ").value.1).None?)) ==>
      PointFromStr(c, s) == None && SizeFromStr(c, s) == None
  {
    if |s| >= 2 && s[0] == '{' && s[|s| - 1] == '}' {
      assert StripPrefix(s, "{") == Some(s[1..]);
      assert s[1..][|s| - 2..] == "}";
      assert s[1..][..|s| - 2] == s[1..|s| - 1];
    }
  }

  /**
   * Rectangle text is rejected when it does not start with `{{` and end
   * with `}}`, when the inside has no `}, {`, or when either half is not a
   * well-formed pair.
   */
  lemma RectParseRejects(c: FieldCodec, s: string)
    ensures !(|s| >= 4 && s[..2] == "{{" && s[|s| - 2..] == "}}") ==> RectFromStr(c, s) == None
    ensures |s| >= 4 && s[..2] == "{{" && s[|s| - 2..] == "}}" && SplitOnce(s[2..|s| - 2], "}, {").None? ==>
      RectFromStr(c, s) == None
    ensures (|s| >= 4 && s[..2] == "{{" && s[|s| - 2..] == "}}" && SplitOnce(s[2..|s| - 2], "}, {").Some? &&
             (ParseTuple(c, SplitOnce(s[2..|s| - 2], "}, {").value.0).None? ||
              ParseTuple(c, SplitOnce(s[2..|s| - 2], "}, {").value.1).None?)) ==>
      RectFromStr(c, s) == None
  {
    if |s| >= 4 && s[..2] == "{{" && s[|s| - 2..] == "}}" {
      assert StripPrefix(s, "{{") == Some(s[2..]);
      assert s[2..][|s| - 4..] == s[|s| - 2..];
      assert s[2..][..|s| - 4] == s[2..|s| - 2];
    }
  }
  // ---------------------------------------------------------------------
  // What the real `f32` codec does not satisfy
  // ---------------------------------------------------------------------

  /** The bit pattern of `1.0_f32`. */
  const ONE: CGFloat := CGFloat(0x3F80_0000)

  /**
   * A codec that, like `f32::from_str`, reads both `1` and `1.0` as one,
   * and, like `f32`'s `Display`, writes one as `1`.
   */
  function TwoSpellingsOfOne(): FieldCodec {
    FieldCodec(t => if t == "1" || t == "1.0" then Some(ONE) else None, f => "1")
  }

  /**
   * With such a codec, text that parses as a point need not be how that
   * point is formatted: `Canonical` fails, so `PointParseFormat` does not
   * apply to `f32`.
   */
  lemma TwoSpellingsNotCanonical()
    ensures PointFromStr(TwoSpellingsOfOne(), "{1.0, 1}") == Some(CGPoint(ONE, ONE))
    ensures PointToString(TwoSpellingsOfOne(), CGPoint(ONE, ONE)) == "{1, 1}" != "{1.0, 1}"
    ensures !Canonical(TwoSpellingsOfOne())
  {
    var c := TwoSpellingsOfOne();
    assert "{1.0, 1}" == "{" + ("1.0" + ", " + "1") + "}";
    Unbrace("1.0" + ", " + "1");
    ParseTupleOf(c, "1.0", "1");
    assert c.parse("1.0") == Some(ONE) && c.show(ONE) == "1";
  }

  /** Two quiet NaNs that differ only in their payload. */
  const QUIET_NAN: CGFloat := CGFloat(0x7FC0_0000)
  const OTHER_NAN: CGFloat := CGFloat(0x7FC0_0001)

  /**
   * A codec that writes both NaNs alike, as `f32`'s `Display` writes every
   * NaN as `NaN`, cannot round-trip both: the round-trip lemmas say nothing
   * about a field holding a NaN other than the one `NaN` parses to.
   */
  lemma NaNPayloadsDoNotRoundTrip(c: FieldCodec)
    requires c.show(QUIET_NAN) == c.show(OTHER_NAN)
    ensures !FieldRoundTrips(c, QUIET_NAN) || !FieldRoundTrips(c, OTHER_NAN)
  {
  }
}
