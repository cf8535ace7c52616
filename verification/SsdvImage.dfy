/** The coefficients of an image, in the tokens that go into the transcoder and in
    what comes out of it. */
module SsdvImage {
  import opened SsdvDc
  import opened SsdvMachine

  // ----- The coefficients in the output -----

  /** By block and place, those that are not zero. */
  function Coefs(out: seq<Emit>): map<(nat, nat), int> {
    if out == [] then map[]
    else
      var init, e := out[..|out| - 1], out[|out| - 1];
      if Scan(init).pos > 0 && e.value != 0 then Coefs(init)[(Scan(init).done, Scan(init).pos + e.rle) := e.value]
      else Coefs(init)
  }

  lemma CoefsMore(out: seq<Emit>, e: Emit)
    ensures var s := Scan(out);
      Coefs(out + [e]) ==
        if s.pos > 0 && e.value != 0 then Coefs(out)[(s.done, s.pos + e.rle) := e.value] else Coefs(out)
  {
    hide Scan;
    assert (out + [e])[..|out|] == out;
  }

  lemma {:induction false} SixteensPass(out: seq<Emit>, c: nat, n: nat)
    requires Scan(out).pos > 0 && Scan(out).pos + 16 * n < 64
    ensures var all := out + Sixteens(c, n);
      && Scan(all).pos == Scan(out).pos + 16 * n && Scan(all).done == Scan(out).done && Coefs(all) == Coefs(out)
  {
    hide Scan, Coefs;
    if n == 0 {
      assert out + Sixteens(c, 0) == out;
    } else {
      SixteensPass(out, c, n - 1);
      SixteenMore(c, n - 1);
      assert out + Sixteens(c, n) == (out + Sixteens(c, n - 1)) + [Emit(c, 15, 0)];
      ScanMore(out + Sixteens(c, n - 1), Emit(c, 15, 0));
      CoefsMore(out + Sixteens(c, n - 1), Emit(c, 15, 0));
    }
  }

  /** A value behind zeros held back is at the place behind all of these. */
  lemma AcCoefs(out: seq<Emit>, c: nat, held: nat, v: int, last: bool)
    requires Scan(out).pos > 0 && Scan(out).pos + held < 64 && (last <==> Scan(out).pos + held == 63)
    ensures var s, all := Scan(out), out + AcOut(c, held, v, last);
      && Coefs(all) == (if v != 0 then Coefs(out)[(s.done, s.pos + held) := v] else Coefs(out))
      && (last ==> Scan(all).pos == 0)
  {
    hide Scan, Coefs;
    if v != 0 {
      SixteensPass(out, c, held / 16);
      var most, e := out + Sixteens(c, held / 16), Emit(c, held % 16, v);
      assert out + AcOut(c, held, v, last) == most + [e];
      ScanMore(most, e);
      CoefsMore(most, e);
    } else if last {
      ScanMore(out, Emit(c, 0, 0));
      CoefsMore(out, Emit(c, 0, 0));
    } else {
      assert out + AcOut(c, held, v, last) == out;
    }
  }

  lemma {:induction false} EmptiesHaveNone(out: seq<Emit>, from: nat, upto: nat, yc: nat)
    requires Scan(out).pos == 0
    ensures Coefs(out + Empties(from, upto, yc)) == Coefs(out) && Scan(out + Empties(from, upto, yc)).pos == 0
  {
    hide Scan, Coefs;
    if upto <= from {
      assert out + Empties(from, upto, yc) == out;
    } else {
      EmptiesHaveNone(out, from, upto - 1, yc);
      var most, e := out + Empties(from, upto - 1, yc), Emit(Component(upto - 1, yc), 0, 0);
      assert out + Empties(from, upto, yc) == most + [e] + [e];
      ScanMore(most, e);
      CoefsMore(most, e);
      ScanMore(most + [e], e);
      CoefsMore(most + [e], e);
    }
  }

  // ----- The coefficients in the input -----

  /** How far the tokens are read: the block and the place in it, and all coefficients. */
  datatype Image = Image(block: nat, place: nat, coefs: map<(nat, nat), int>)

  /** On to this place, or to the next block; without colour its two blocks are passed
      over. */
  function MoveTo(m: Image, place: nat, yc: nat, greyscale: bool): Image {
    if place < 64 then m.(place := place)
    else m.(place := 0, block := m.block + if greyscale && m.block % (yc + 2) + 1 == yc then 3 else 1)
  }

  function ReadToken(m: Image, token: Token, yc: nat, greyscale: bool): Image {
    match token
    case Dc(_) => m.(place := 1)
    case Eob => MoveTo(m, 64, yc, greyscale)
    case Zrl => MoveTo(m, m.place + 16, yc, greyscale)
    case Ac(zeros, i) =>
      MoveTo(m.(coefs := m.coefs[(m.block, m.place + zeros) := i]), m.place + zeros + 1, yc, greyscale)
  }

  function ReadAll(tokens: seq<Token>, yc: nat, greyscale: bool): Image {
    if tokens == [] then Image(0, 0, map[])
    else ReadToken(ReadAll(tokens[..|tokens| - 1], yc, greyscale), tokens[|tokens| - 1], yc, greyscale)
  }

  /** Each coefficient that went in comes out at its place as the nearest number of
      output steps, or not at all where that is zero; and nothing else comes out. */
  ghost predicate Requantised(acQuant: (nat, nat) -> Quant, yc: nat, went: map<(nat, nat), int>,
                              came: map<(nat, nat), int>) {
    && (forall k :: k in went ==>
      var part := k.0 % (yc + 2);
      IsNearest(acQuant(if part < yc then 0 else part - yc + 1, k.1), went[k], if k in came then came[k] else 0))
    && (forall k :: k in came ==> k in went && came[k] != 0)
  }

  ghost predicate Behind(m: Image) {
    forall k :: k in m.coefs ==> k.0 < m.block || (k.0 == m.block && k.1 < m.place)
  }

  /** The transcoder is where the tokens are read to, and has put out what they hold. */
  ghost predicate Shows(s: Ssdv, m: Image)
    reads s
  {
    && m.block == s.mcuId * (s.yc + 2) + s.mcupart && Behind(m)
    && Requantised(s.acQuant, s.yc, m.coefs, Coefs(s.out))
  }

  /** One more coefficient in and out. */
  lemma OneRequantised(acQuant: (nat, nat) -> Quant, yc: nat, went: map<(nat, nat), int>, came: map<(nat, nat), int>,
                       k: (nat, nat), i: int)
    requires Requantised(acQuant, yc, went, came) && k !in went && forall d, p :: Positive(acQuant(d, p))
    ensures var part := k.0 % (yc + 2);
      var v := Badj(acQuant(if part < yc then 0 else part - yc + 1, k.1), i);
      Requantised(acQuant, yc, went[k := i], if v != 0 then came[k := v] else came)
  {
    hide IsNearest, Badj;
    var part := k.0 % (yc + 2);
    BadjNearest(acQuant(if part < yc then 0 else part - yc + 1, k.1), i);
  }

  /** What a token puts out holds what it says. */
  lemma TokenShows(s: Ssdv, m: Image, token: Token, out: seq<Emit>, mcu: nat, part: nat, held: nat, dcOut: int)
    requires s.yc > 0 && part < s.yc + 2 && m.block == mcu * (s.yc + 2) + part && Behind(m)
    requires forall d, k :: Positive(s.acQuant(d, k))
    requires Scan(out).done == m.block && (Scan(out).pos == 0 <==> m.place == 0)
    requires m.place > 0 ==> Scan(out).pos + held == m.place
    requires match token
             case Dc(_) => m.place == 0
             case Eob => m.place > 0
             case Zrl => 0 < m.place && m.place + 16 < 64
             case Ac(zeros, _) => 0 < m.place && m.place + zeros < 64
    requires Requantised(s.acQuant, s.yc, m.coefs, Coefs(out))
    ensures var more := out + s.TokenOut(token, Component(part, s.yc), m.place, held, dcOut);
      && Requantised(s.acQuant, s.yc, ReadToken(m, token, s.yc, s.greyscale).coefs, Coefs(more))
      && (EndsBlock(m.place, token) ==> Scan(more).pos == 0)
  {
    hide Scan, Coefs, Requantised, IsNearest, Badj, AcOut;
    var c := Component(part, s.yc);
    match token {
      case Dc(_) => CoefsMore(out, Emit(c, 0, dcOut));
      case Eob =>
        ScanMore(out, Emit(c, 0, 0));
        CoefsMore(out, Emit(c, 0, 0));
      case Zrl => CoefsMore(out, Emit(c, 15, 0));
      case Ac(zeros, i) =>
        BlockIs(mcu, part, s.yc);
        var k := (m.block, m.place + zeros);
        AcCoefs(out, c, held + zeros, Badj(s.acQuant(c, m.place + zeros), i), EndsBlock(m.place, token));
        assert k !in m.coefs;
        OneRequantised(s.acQuant, s.yc, m.coefs, Coefs(out), k, i);
    }
  }

  /** Where the tokens are read to is the place after the token. */
  lemma MovesOn(m: Image, token: Token, mcu: nat, part: nat, yc: nat, greyscale: bool)
    requires yc > 0 && part < yc + 2 && m.block == mcu * (yc + 2) + part
    ensures var next, p := ReadToken(m, token, yc, greyscale),
      NextPlace(Place(mcu, part, m.place), token, yc, greyscale);
      next.block == p.mcu * (yc + 2) + p.part && next.place == p.ac
    ensures Behind(m) && (token.Dc? ==> m.place == 0) ==> Behind(ReadToken(m, token, yc, greyscale))
  {
    BlockIs(mcu, part, yc);
    assert (mcu + 1) * (yc + 2) == mcu * (yc + 2) + (yc + 2);
  }

  /** A token read, and what it puts out, with the blocks passed over behind it. */
  lemma AfterToken(s: Ssdv, m: Image, token: Token, out: seq<Emit>, mcu: nat, part: nat, held: nat, dcOut: int)
    requires s.yc > 0 && part < s.yc + 2 && m.block == mcu * (s.yc + 2) + part && Behind(m)
    requires forall d, k :: Positive(s.acQuant(d, k))
    requires Scan(out).done == m.block && (Scan(out).pos == 0 <==> m.place == 0)
    requires m.place > 0 ==> Scan(out).pos + held == m.place
    requires match token
             case Dc(_) => m.place == 0
             case Eob => m.place > 0
             case Zrl => 0 < m.place && m.place + 16 < 64
             case Ac(zeros, _) => 0 < m.place && m.place + zeros < 64
    requires Requantised(s.acQuant, s.yc, m.coefs, Coefs(out))
    requires var passed := if EndsBlock(m.place, token) then PassedOver(part, s.yc, s.greyscale) else 0;
      s.out == out + s.TokenOut(token, Component(part, s.yc), m.place, held, dcOut)
               + Empties(s.yc, s.yc + passed, s.yc)
    requires var p := NextPlace(Place(mcu, part, m.place), token, s.yc, s.greyscale);
      s.mcuId == p.mcu && s.mcupart == p.part
    ensures Shows(s, ReadToken(m, token, s.yc, s.greyscale))
    ensures ReadToken(m, token, s.yc, s.greyscale).place ==
      NextPlace(Place(mcu, part, m.place), token, s.yc, s.greyscale).ac
  {
    hide Scan, Coefs, Requantised, Behind, NextPlace, ReadToken, Ssdv.TokenOut;
    TokenShows(s, m, token, out, mcu, part, held, dcOut);
    MovesOn(m, token, mcu, part, s.yc, s.greyscale);
    var all := out + s.TokenOut(token, Component(part, s.yc), m.place, held, dcOut);
    if EndsBlock(m.place, token) {
      EmptiesHaveNone(all, s.yc, s.yc + PassedOver(part, s.yc, s.greyscale), s.yc);
    } else {
      assert all + Empties(s.yc, s.yc, s.yc) == all;
    }
  }
}
