/**
 * The chunk-size table `M`: how many base62 digits a chunk of `x` bytes
 * needs, for chunk sizes 1 to `N`. The ports compute `ceil(8x / log2 62)` in
 * floating point; its exact meaning is the least `y` with `256^x <= 62^y`
 * (`MinWidth`), and for these sizes that is `x + 1 + floor(x / 3)`.
 */
module Widths {
  import opened Radix
  import opened Outcomes

  /** The largest chunk, in bytes: a hard design point. */
  const N: nat := 32

  /** The least `r >= y` with `bound <= 62^r`, searching upwards from `y`. */
  function LeastWidth(bound: nat, y: nat): (r: nat)
    requires y == 0 || Pow(62, y - 1) < bound
    ensures y <= r && bound <= Pow(62, r)
    ensures r == 0 || Pow(62, r - 1) < bound
    decreases bound - y
  {
    if bound <= Pow(62, y) then y
    else
      PowExceedsExponent(62, y);
      LeastWidth(bound, y + 1)
  }

  /** The fewest digits for a chunk of `x` bytes: `62^y` covers every `8x`-bit value, one digit fewer does not. */
  function MinWidth(x: nat): (y: nat)
    ensures Pow(256, x) <= Pow(62, y)
    ensures y == 0 || Pow(62, y - 1) < Pow(256, x)
  {
    LeastWidth(Pow(256, x), 0)
  }

  /** The least width is pinned down by the two bounds. */
  lemma MinWidthIs(x: nat, y: nat)
    requires y >= 1 && Pow(62, y - 1) < Pow(256, x) <= Pow(62, y)
    ensures MinWidth(x) == y
  {
    var w := MinWidth(x);
    if w < y {
      PowMonotone(62, w, y - 1);
    } else if w > y {
      PowMonotone(62, y, w - 1);
    }
  }

  lemma Powers62()
    ensures Pow(62, 1) == 62
    ensures Pow(62, 2) == 3844
    ensures Pow(62, 3) == 238328
    ensures Pow(62, 4) == 14776336
    ensures Pow(62, 5) == 916132832
    ensures Pow(62, 6) == 56800235584
    ensures Pow(62, 7) == 3521614606208
    ensures Pow(62, 8) == 218340105584896
    ensures Pow(62, 9) == 13537086546263552
    ensures Pow(62, 10) == 839299365868340224
    ensures Pow(62, 11) == 52036560683837093888
    ensures Pow(62, 12) == 3226266762397899821056
    ensures Pow(62, 13) == 200028539268669788905472
    ensures Pow(62, 14) == 12401769434657526912139264
    ensures Pow(62, 15) == 768909704948766668552634368
    ensures Pow(62, 16) == 47672401706823533450263330816
    ensures Pow(62, 17) == 2955688905823059073916326510592
    ensures Pow(62, 18) == 183252712161029662582812243656704
    ensures Pow(62, 19) == 11361668153983839080134359106715648
    ensures Pow(62, 20) == 704423425546998022968330264616370176
    ensures Pow(62, 21) == 43674252383913877424036476406214950912
    ensures Pow(62, 22) == 2707803647802660400290261537185326956544
    ensures Pow(62, 23) == 167883826163764944817996215305490271305728
    ensures Pow(62, 24) == 10408797222153426578715765348940396820955136
    ensures Pow(62, 25) == 645345427773512447880377451634304602899218432
    ensures Pow(62, 26) == 40011416521957771768583402001326885379751542784
    ensures Pow(62, 27) == 2480707824361381849652170924082266893544595652608
    ensures Pow(62, 28) == 153803885110405674678434597293100547399764930461696
    ensures Pow(62, 29) == 9535840876845151830062945032172233938785425688625152
    ensures Pow(62, 30) == 591222134364399413463902591994678504204696392694759424
    ensures Pow(62, 31) == 36655772330592763634761960703670067260691176347075084288
    ensures Pow(62, 32) == 2272657884496751345355241563627544170162852933518655225856
    ensures Pow(62, 33) == 140904788838798583412024976944907738550096881878156624003072
    ensures Pow(62, 34) == 8736096908005512171545548570584279790106006676445710688190464
    ensures Pow(62, 35) == 541638008296341754635824011376225346986572413939634062667808768
    ensures Pow(62, 36) == 33581556514373188787421088705325971513167489664257311885404143616
    ensures Pow(62, 37) == 2082056503891137704820107499730210233816384359183953336895056904192
    ensures Pow(62, 38) == 129087503241250537698846664983273034496615830269405106887493528059904
    ensures Pow(62, 39) == 8003425200957533337328493228962928138790181476703116627024598739714048
    ensures Pow(62, 40) == 496212362459367066914366580195701544604991251555593230875525121862270976
    ensures Pow(62, 41) == 30765166472480758148690727972133495765509457596446780314282557555460800512
    ensures Pow(62, 42) == 1907440321293807005218825134272276737461586370979700379485518568438569631744
    ensures Pow(62, 43) == 118261299920216034323567158324881157722618355000741423528102151243191317168128
  {
    assert Pow(62, 1) == 62;
    assert Pow(62, 2) == 3844;
    assert Pow(62, 3) == 238328;
    assert Pow(62, 4) == 14776336;
    assert Pow(62, 5) == 916132832;
    assert Pow(62, 6) == 56800235584;
    assert Pow(62, 7) == 3521614606208;
    assert Pow(62, 8) == 218340105584896;
    assert Pow(62, 9) == 13537086546263552;
    assert Pow(62, 10) == 839299365868340224;
    assert Pow(62, 11) == 52036560683837093888;
    assert Pow(62, 12) == 3226266762397899821056;
    assert Pow(62, 13) == 200028539268669788905472;
    assert Pow(62, 14) == 12401769434657526912139264;
    assert Pow(62, 15) == 768909704948766668552634368;
    assert Pow(62, 16) == 47672401706823533450263330816;
    assert Pow(62, 17) == 2955688905823059073916326510592;
    assert Pow(62, 18) == 183252712161029662582812243656704;
    assert Pow(62, 19) == 11361668153983839080134359106715648;
    assert Pow(62, 20) == 704423425546998022968330264616370176;
    assert Pow(62, 21) == 43674252383913877424036476406214950912;
    assert Pow(62, 22) == 2707803647802660400290261537185326956544;
    assert Pow(62, 23) == 167883826163764944817996215305490271305728;
    assert Pow(62, 24) == 10408797222153426578715765348940396820955136;
    assert Pow(62, 25) == 645345427773512447880377451634304602899218432;
    assert Pow(62, 26) == 40011416521957771768583402001326885379751542784;
    assert Pow(62, 27) == 2480707824361381849652170924082266893544595652608;
    assert Pow(62, 28) == 153803885110405674678434597293100547399764930461696;
    assert Pow(62, 29) == 9535840876845151830062945032172233938785425688625152;
    assert Pow(62, 30) == 591222134364399413463902591994678504204696392694759424;
    assert Pow(62, 31) == 36655772330592763634761960703670067260691176347075084288;
    assert Pow(62, 32) == 2272657884496751345355241563627544170162852933518655225856;
    assert Pow(62, 33) == 140904788838798583412024976944907738550096881878156624003072;
    assert Pow(62, 34) == 8736096908005512171545548570584279790106006676445710688190464;
    assert Pow(62, 35) == 541638008296341754635824011376225346986572413939634062667808768;
    assert Pow(62, 36) == 33581556514373188787421088705325971513167489664257311885404143616;
    assert Pow(62, 37) == 2082056503891137704820107499730210233816384359183953336895056904192;
    assert Pow(62, 38) == 129087503241250537698846664983273034496615830269405106887493528059904;
    assert Pow(62, 39) == 8003425200957533337328493228962928138790181476703116627024598739714048;
    assert Pow(62, 40) == 496212362459367066914366580195701544604991251555593230875525121862270976;
    assert Pow(62, 41) == 30765166472480758148690727972133495765509457596446780314282557555460800512;
    assert Pow(62, 42) == 1907440321293807005218825134272276737461586370979700379485518568438569631744;
    assert Pow(62, 43) == 118261299920216034323567158324881157722618355000741423528102151243191317168128;
  }

  lemma Powers256()
    ensures Pow(256, 1) == 256
    ensures Pow(256, 2) == 65536
    ensures Pow(256, 3) == 16777216
    ensures Pow(256, 4) == 4294967296
    ensures Pow(256, 5) == 1099511627776
    ensures Pow(256, 6) == 281474976710656
    ensures Pow(256, 7) == 72057594037927936
    ensures Pow(256, 8) == 18446744073709551616
    ensures Pow(256, 9) == 4722366482869645213696
    ensures Pow(256, 10) == 1208925819614629174706176
    ensures Pow(256, 11) == 309485009821345068724781056
    ensures Pow(256, 12) == 79228162514264337593543950336
    ensures Pow(256, 13) == 20282409603651670423947251286016
    ensures Pow(256, 14) == 5192296858534827628530496329220096
    ensures Pow(256, 15) == 1329227995784915872903807060280344576
    ensures Pow(256, 16) == 340282366920938463463374607431768211456
    ensures Pow(256, 17) == 87112285931760246646623899502532662132736
    ensures Pow(256, 18) == 22300745198530623141535718272648361505980416
    ensures Pow(256, 19) == 5708990770823839524233143877797980545530986496
    ensures Pow(256, 20) == 1461501637330902918203684832716283019655932542976
    ensures Pow(256, 21) == 374144419156711147060143317175368453031918731001856
    ensures Pow(256, 22) == 95780971304118053647396689196894323976171195136475136
    ensures Pow(256, 23) == 24519928653854221733733552434404946937899825954937634816
    ensures Pow(256, 24) == 6277101735386680763835789423207666416102355444464034512896
    ensures Pow(256, 25) == 1606938044258990275541962092341162602522202993782792835301376
    ensures Pow(256, 26) == 411376139330301510538742295639337626245683966408394965837152256
    ensures Pow(256, 27) == 105312291668557186697918027683670432318895095400549111254310977536
    ensures Pow(256, 28) == 26959946667150639794667015087019630673637144422540572481103610249216
    ensures Pow(256, 29) == 6901746346790563787434755862277025452451108972170386555162524223799296
    ensures Pow(256, 30) == 1766847064778384329583297500742918515827483896875618958121606201292619776
    ensures Pow(256, 31) == 452312848583266388373324160190187140051835877600158453279131187530910662656
    ensures Pow(256, 32) == 115792089237316195423570985008687907853269984665640564039457584007913129639936
  {
    assert Pow(256, 1) == 256;
    assert Pow(256, 2) == 65536;
    assert Pow(256, 3) == 16777216;
    assert Pow(256, 4) == 4294967296;
    assert Pow(256, 5) == 1099511627776;
    assert Pow(256, 6) == 281474976710656;
    assert Pow(256, 7) == 72057594037927936;
    assert Pow(256, 8) == 18446744073709551616;
    assert Pow(256, 9) == 4722366482869645213696;
    assert Pow(256, 10) == 1208925819614629174706176;
    assert Pow(256, 11) == 309485009821345068724781056;
    assert Pow(256, 12) == 79228162514264337593543950336;
    assert Pow(256, 13) == 20282409603651670423947251286016;
    assert Pow(256, 14) == 5192296858534827628530496329220096;
    assert Pow(256, 15) == 1329227995784915872903807060280344576;
    assert Pow(256, 16) == 340282366920938463463374607431768211456;
    assert Pow(256, 17) == 87112285931760246646623899502532662132736;
    assert Pow(256, 18) == 22300745198530623141535718272648361505980416;
    assert Pow(256, 19) == 5708990770823839524233143877797980545530986496;
    assert Pow(256, 20) == 1461501637330902918203684832716283019655932542976;
    assert Pow(256, 21) == 374144419156711147060143317175368453031918731001856;
    assert Pow(256, 22) == 95780971304118053647396689196894323976171195136475136;
    assert Pow(256, 23) == 24519928653854221733733552434404946937899825954937634816;
    assert Pow(256, 24) == 6277101735386680763835789423207666416102355444464034512896;
    assert Pow(256, 25) == 1606938044258990275541962092341162602522202993782792835301376;
    assert Pow(256, 26) == 411376139330301510538742295639337626245683966408394965837152256;
    assert Pow(256, 27) == 105312291668557186697918027683670432318895095400549111254310977536;
    assert Pow(256, 28) == 26959946667150639794667015087019630673637144422540572481103610249216;
    assert Pow(256, 29) == 6901746346790563787434755862277025452451108972170386555162524223799296;
    assert Pow(256, 30) == 1766847064778384329583297500742918515827483896875618958121606201292619776;
    assert Pow(256, 31) == 452312848583266388373324160190187140051835877600158453279131187530910662656;
    assert Pow(256, 32) == 115792089237316195423570985008687907853269984665640564039457584007913129639936;
  }


  lemma MinWidthRows1()
    ensures forall x :: 1 <= x <= 8 ==> MinWidth(x) == x + 1 + x / 3
  {
    Powers62();
    Powers256();
    forall x | 1 <= x <= 8
      ensures MinWidth(x) == x + 1 + x / 3
    {
      if x == 1 { MinWidthIs(1, 2); } else if x == 2 { MinWidthIs(2, 3); } else if x == 3 { MinWidthIs(3, 5); } else if x == 4 { MinWidthIs(4, 6); } else if x == 5 { MinWidthIs(5, 7); } else if x == 6 { MinWidthIs(6, 9); } else if x == 7 { MinWidthIs(7, 10); } else { MinWidthIs(8, 11); }
    }
  }

  lemma MinWidthRows2()
    ensures forall x :: 9 <= x <= 16 ==> MinWidth(x) == x + 1 + x / 3
  {
    Powers62();
    Powers256();
    forall x | 9 <= x <= 16
      ensures MinWidth(x) == x + 1 + x / 3
    {
      if x == 9 { MinWidthIs(9, 13); } else if x == 10 { MinWidthIs(10, 14); } else if x == 11 { MinWidthIs(11, 15); } else if x == 12 { MinWidthIs(12, 17); } else if x == 13 { MinWidthIs(13, 18); } else if x == 14 { MinWidthIs(14, 19); } else if x == 15 { MinWidthIs(15, 21); } else { MinWidthIs(16, 22); }
    }
  }

  lemma MinWidthRows3()
    ensures forall x :: 17 <= x <= 24 ==> MinWidth(x) == x + 1 + x / 3
  {
    Powers62();
    Powers256();
    forall x | 17 <= x <= 24
      ensures MinWidth(x) == x + 1 + x / 3
    {
      if x == 17 { MinWidthIs(17, 23); } else if x == 18 { MinWidthIs(18, 25); } else if x == 19 { MinWidthIs(19, 26); } else if x == 20 { MinWidthIs(20, 27); } else if x == 21 { MinWidthIs(21, 29); } else if x == 22 { MinWidthIs(22, 30); } else if x == 23 { MinWidthIs(23, 31); } else { MinWidthIs(24, 33); }
    }
  }

  lemma MinWidthRows4()
    ensures forall x :: 25 <= x <= 32 ==> MinWidth(x) == x + 1 + x / 3
  {
    Powers62();
    Powers256();
    forall x | 25 <= x <= 32
      ensures MinWidth(x) == x + 1 + x / 3
    {
      if x == 25 { MinWidthIs(25, 34); } else if x == 26 { MinWidthIs(26, 35); } else if x == 27 { MinWidthIs(27, 37); } else if x == 28 { MinWidthIs(28, 38); } else if x == 29 { MinWidthIs(29, 39); } else if x == 30 { MinWidthIs(30, 41); } else if x == 31 { MinWidthIs(31, 42); } else { MinWidthIs(32, 43); }
    }
  }

  /** `M(x)`, the table entry for a chunk of `x` bytes. */
  function Width(x: nat): nat
    requires 1 <= x <= N
  {
    x + 1 + x / 3
  }

  lemma WidthIsMin(x: nat)
    requires 1 <= x <= N
    ensures Width(x) == MinWidth(x)
  {
    if x <= 8 {
      MinWidthRows1();
    } else if x <= 16 {
      MinWidthRows2();
    } else if x <= 24 {
      MinWidthRows3();
    } else {
      MinWidthRows4();
    }
  }

  /** Each table entry is the fewest digits that hold every value of its chunk, so padding never truncates. */
  lemma WidthIsLeast(x: nat)
    requires 1 <= x <= N
    ensures Width(x) == MinWidth(x)
    ensures Pow(256, x) <= Pow(62, Width(x))
    ensures Pow(62, Width(x) - 1) < Pow(256, x)
  {
    WidthIsMin(x);
  }

  /** The table strictly increases, so no two chunk sizes share a group length. */
  lemma WidthStrictlyIncreasing(x1: nat, x2: nat)
    requires 1 <= x1 < x2 <= N
    ensures Width(x1) < Width(x2)
  {
  }

  /** Base62 text is never denser than 6 bits per character: `8x < 6 M(x)`. */
  lemma WidthDensity(x: nat)
    requires 1 <= x <= N
    ensures 4 * x < 3 * Width(x)
  {
  }

  /** The widest group, `MAX_CHUNK`: 43, which is `M(N)` (`MaxChunkIsWidest`). */
  const MaxChunk: nat := 43

  lemma MaxChunkIsWidest(x: nat)
    requires 1 <= x <= N
    ensures MaxChunk == Width(N)
    ensures Width(x) <= MaxChunk
    ensures Width(x) == MaxChunk <==> x == N
  {
  }

  function InvWidthFrom(c: nat, x: nat): (r: Option<nat>)
    requires x >= 1
    ensures r.Some? ==> x <= r.value <= N && Width(r.value) == c
    ensures r.None? ==> forall z :: x <= z <= N ==> Width(z) != c
    decreases N + 1 - x
  {
    if x > N then None
    else if Width(x) == c then Some(x)
    else InvWidthFrom(c, x + 1)
  }

  /** `INV_M`: the chunk size whose table entry is `c`, if there is one. */
  function InvWidth(c: nat): (r: Option<nat>)
    ensures r.Some? ==> 1 <= r.value <= N && Width(r.value) == c
    ensures r.None? ==> forall x :: 1 <= x <= N ==> Width(x) != c
  {
    InvWidthFrom(c, 1)
  }

  /** The inverse table undoes the table exactly: inserting every entry overwrote nothing. */
  lemma InvWidthOfWidth(x: nat)
    requires 1 <= x <= N
    ensures InvWidth(Width(x)) == Some(x)
  {
    var r := InvWidth(Width(x));
    assert r.Some?;
    ClosedFormArith(r.value);
    ClosedFormArith(x);
  }

  /** The closed form maps onto the lengths that are neither 1 nor multiples of 4. */
  lemma ClosedFormArith(z: nat)
    requires z >= 1
    ensures var c := z + 1 + z / 3; c > 1 && c % 4 != 0 && z == c - 1 - (c - 1) / 4
  {
    var q, r := z / 3, z % 3;
    assert z == 3 * q + r;
    var c := z + 1 + z / 3;
    assert c - 1 == 4 * q + r;
    DivModUnique(c - 1, 4, q, r);
    DivModUnique(c, 4, q, r + 1);
  }

  lemma ClosedFormArithInverse(c: nat)
    requires c > 1 && c % 4 != 0
    ensures var z := c - 1 - (c - 1) / 4; z >= 1 && z + 1 + z / 3 == c
  {
    var q, r := (c - 1) / 4, (c - 1) % 4;
    if r == 3 {
      DivModUnique(c, 4, q + 1, 0);
    }
    DivModUnique(c - 1 - q, 3, q, r);
  }

  /**
   * The inverse table in closed form: a group length has a chunk size exactly
   * when it is at most `MaxChunk` and neither 0, 1 nor a multiple of 4, and
   * then the chunk size is `c - 1 - floor((c - 1) / 4)`.
   */
  lemma InvWidthClosedForm(c: nat)
    ensures InvWidth(c).None? <==> c <= 1 || c % 4 == 0 || c > MaxChunk
    ensures InvWidth(c).Some? ==> InvWidth(c).value == c - 1 - (c - 1) / 4
  {
    var r := InvWidth(c);
    if c > 1 && c % 4 != 0 && c <= MaxChunk {
      ClosedFormArithInverse(c);
      var z := c - 1 - (c - 1) / 4;
      assert Width(z) == c;
    }
    if r.Some? {
      ClosedFormArith(r.value);
    }
  }
}
