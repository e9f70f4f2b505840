/** A generic printer and parser for the byte layouts of the signed records: fixed-width fields,
    fields framed by a 32-bit big-endian length, and optional framed fields behind a flag byte. */
module Framing {
  import opened Numbers
  import opened ByteStrings
  import opened Results

  datatype Field =
    | Fixed(bytes: Bytes)
    | Framed(bytes: Bytes)
    | Optional(content: Option<Bytes>)

  datatype Shape = FixedOf(width: nat) | FramedOf | OptionalOf

  function ShapeOf(f: Field): Shape {
    match f
    case Fixed(b) => FixedOf(|b|)
    case Framed(_) => FramedOf
    case Optional(_) => OptionalOf
  }

  function Shapes(fs: seq<Field>): (r: seq<Shape>)
    ensures |r| == |fs|
  {
    seq(|fs|, i requires 0 <= i < |fs| => ShapeOf(fs[i]))
  }

  /** `(b.len() as u32).to_be_bytes()` followed by the bytes; the cast keeps the low 32 bits. */
  function Frame(b: Bytes): Bytes { FixedBE(|b|, 4) + b }

  function PrintField(f: Field): Bytes {
    match f
    case Fixed(b) => b
    case Framed(b) => Frame(b)
    case Optional(None) => [0]
    case Optional(Some(b)) => [1] + Frame(b)
  }

  function Print(fs: seq<Field>): Bytes {
    if |fs| == 0 then [] else Print(fs[..|fs| - 1]) + PrintField(fs[|fs| - 1])
  }

  /** `extend_from_slice`: the buffer grows by the next field of the layout. */
  method Extend(buf: Bytes, chunk: Bytes, ghost fs: seq<Field>, ghost done: nat) returns (out: Bytes)
    requires done < |fs| && buf == Print(fs[..done]) && chunk == PrintField(fs[done])
    ensures out == Print(fs[..done + 1])
    ensures done + 1 == |fs| ==> out == Print(fs)
  {
    hide PrintField;
    assert fs[..done + 1][..done] == fs[..done];
    assert fs[..|fs|] == fs;
    out := buf + chunk;
  }

  /** A frame is the big-endian length, cut to 32 bits, in four bytes, and then the bytes. */
  lemma FrameLayout(b: Bytes)
    ensures |Frame(b)| == 4 + |b| && FromBE(Frame(b)[..4]) == |b| % U32_LIMIT && Frame(b)[4..] == b
  {
    FixedBETruncates(|b|, 4);
    Pow256Literals();
  }

  /** Lengths survive the cast to 32 bits. */
  predicate Fits(f: Field) {
    match f
    case Fixed(_) => true
    case Framed(b) => |b| < U32_LIMIT
    case Optional(o) => o.Some? ==> |o.value| < U32_LIMIT
  }

  predicate AllFit(fs: seq<Field>) { forall i :: 0 <= i < |fs| ==> Fits(fs[i]) }

  function ParseFrame(b: Bytes): Option<(Bytes, Bytes)> {
    if |b| < 4 then None
    else
      var n := FromBE(b[..4]);
      if 4 + n > |b| then None else Some((b[4..4 + n], b[4 + n..]))
  }

  function ParseField(s: Shape, b: Bytes): Option<(Field, Bytes)> {
    match s
    case FixedOf(w) => if |b| < w then None else Some((Fixed(b[..w]), b[w..]))
    case FramedOf =>
      var r := ParseFrame(b);
      if r.None? then None else Some((Framed(r.value.0), r.value.1))
    case OptionalOf =>
      if |b| == 0 then None
      else if b[0] == 0 then Some((Optional(None), b[1..]))
      else if b[0] == 1 then
        var r := ParseFrame(b[1..]);
        if r.None? then None else Some((Optional(Some(r.value.0)), r.value.1))
      else None
  }

  function Parse(shapes: seq<Shape>, b: Bytes): Option<seq<Field>>
    decreases |shapes|
  {
    if |shapes| == 0 then if b == [] then Some([]) else None
    else
      var head := ParseField(shapes[0], b);
      if head.None? then None
      else
        var rest := Parse(shapes[1..], head.value.1);
        if rest.None? then None else Some([head.value.0] + rest.value)
  }

  lemma ParseFrameOfFrame(b: Bytes, rest: Bytes)
    requires |b| < U32_LIMIT
    ensures ParseFrame(Frame(b) + rest) == Some((b, rest))
  {
    hide FixedBE;
    hide FromBE;
    var all := Frame(b) + rest;
    assert all[..4] == FixedBE(|b|, 4);
    Pow256Literals();
    FixedBERoundTrip(|b|, 4);
    assert all[4..4 + |b|] == b && all[4 + |b|..] == rest;
  }

  lemma ParseFieldOfPrint(f: Field, rest: Bytes)
    requires Fits(f)
    ensures ParseField(ShapeOf(f), PrintField(f) + rest) == Some((f, rest))
  {
    hide Frame;
    hide ParseFrame;
    var all := PrintField(f) + rest;
    match f
    case Fixed(b) =>
      assert all[..|b|] == b && all[|b|..] == rest;
    case Framed(b) =>
      ParseFrameOfFrame(b, rest);
    case Optional(None) =>
      assert all[1..] == rest;
    case Optional(Some(b)) =>
      assert all[1..] == Frame(b) + rest;
      ParseFrameOfFrame(b, rest);
  }

  lemma {:induction false} PrintFront(fs: seq<Field>)
    requires |fs| > 0
    ensures Print(fs) == PrintField(fs[0]) + Print(fs[1..])
    decreases |fs|
  {
    hide PrintField;
    if |fs| == 1 {
      assert fs[..0] == [] && fs[1..] == [];
    } else {
      var front := fs[..|fs| - 1];
      PrintFront(front);
      assert fs[1..][..|fs| - 2] == front[1..];
    }
  }

  /** Parsing is the inverse of printing on every field list whose lengths fit in 32 bits. */
  lemma {:induction false} ParseOfPrint(fs: seq<Field>)
    requires AllFit(fs)
    ensures Parse(Shapes(fs), Print(fs)) == Some(fs)
    decreases |fs|
  {
    hide ParseField;
    hide PrintField;
    if |fs| > 0 {
      PrintFront(fs);
      ParseFieldOfPrint(fs[0], Print(fs[1..]));
      assert Shapes(fs)[1..] == Shapes(fs[1..]);
      ParseOfPrint(fs[1..]);
      assert fs == [fs[0]] + fs[1..];
    }
  }

  lemma FrameLengthBound(b: Bytes)
    ensures ParseFrame(b).Some? ==> |ParseFrame(b).value.0| < U32_LIMIT
  {
    if |b| >= 4 {
      FromBEBound(b[..4]);
      Pow256Literals();
    }
  }

  lemma {:induction false} ParsedFits(shapes: seq<Shape>, b: Bytes)
    ensures Parse(shapes, b).Some? ==> AllFit(Parse(shapes, b).value)
    decreases |shapes|
  {
    hide ParseFrame;
    if |shapes| > 0 && ParseField(shapes[0], b).Some? {
      FrameLengthBound(b);
      if |b| > 0 {
        FrameLengthBound(b[1..]);
      }
      ParsedFits(shapes[1..], ParseField(shapes[0], b).value.1);
    }
  }

  /** A printed record parses back exactly when no length was truncated. */
  lemma RoundTripExactlyWhenFit(fs: seq<Field>)
    ensures Parse(Shapes(fs), Print(fs)) == Some(fs) <==> AllFit(fs)
  {
    ParsedFits(Shapes(fs), Print(fs));
    if AllFit(fs) {
      ParseOfPrint(fs);
    }
  }

  /** Equal bytes of equal shape come from equal fields. */
  lemma PrintInjective(fs: seq<Field>, gs: seq<Field>)
    requires AllFit(fs) && AllFit(gs) && Shapes(fs) == Shapes(gs) && Print(fs) == Print(gs)
    ensures fs == gs
  {
    ParseOfPrint(fs);
    ParseOfPrint(gs);
  }
}
