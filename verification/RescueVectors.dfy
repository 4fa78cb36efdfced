/** A known answer of the permutation, worked out state by state through all seven rounds. */
module RescueVectors {
  import opened ModArith
  import opened Rescue

  /** Dividing by the modulus, written out. */
  lemma Reduced(x: int, y: Elem, q: int)
    requires x == q * 340282366920938463463374557953744961537 + y
    ensures New(x) == y
  {
    NewShift(y, q, x);
  }

  lemma ReducedTwice(x: int, y: int)
    ensures New(New(x) + y) == New(x + y)
  {
    var k := NewSplit(x);
    ModShift(MODULUS, x + y, -k);
  }

  /** The round constants are far below the wrap-around and the modulus. */
  lemma ConstantIs(i: nat, j: nat)
    requires i < 14 && j < 3
    ensures RoundConstant(i, j) == (i * 3 + j + 1) * 0x9e3779b97f4a7c15 + 42
  {
  }

  /** A matrix product and the constants of half-round i, with the number of moduli that each element sheds. */
  lemma HalfIs(s: State, i: nat, t: State, qa: int, qb: int, qc: int)
    requires i < 14
    requires 2 * s.a + s.b + s.c + (3 * i + 1) * 0x9e3779b97f4a7c15 + 42
             == qa * 340282366920938463463374557953744961537 + t.a
    requires s.a + 2 * s.b + s.c + (3 * i + 2) * 0x9e3779b97f4a7c15 + 42
             == qb * 340282366920938463463374557953744961537 + t.b
    requires s.a + s.b + 2 * s.c + (3 * i + 3) * 0x9e3779b97f4a7c15 + 42
             == qc * 340282366920938463463374557953744961537 + t.c
    ensures HalfRound(s, i) == t
  {
    hide New, RoundConstant;
    ConstantIs(i, 0);
    ConstantIs(i, 1);
    ConstantIs(i, 2);
    ReducedTwice(2 * s.a + s.b + s.c, RoundConstant(i, 0));
    ReducedTwice(s.a + 2 * s.b + s.c, RoundConstant(i, 1));
    ReducedTwice(s.a + s.b + 2 * s.c, RoundConstant(i, 2));
    Reduced(2 * s.a + s.b + s.c + RoundConstant(i, 0), t.a, qa);
    Reduced(s.a + 2 * s.b + s.c + RoundConstant(i, 1), t.b, qb);
    Reduced(s.a + s.b + 2 * s.c + RoundConstant(i, 2), t.c, qc);
  }

  /** A round from s to t: cubes z, half-round m, whose cube roots are u because the cubes of u are m. */
  lemma RoundIs(s: State, z: State, m: State, u: State, t: State, r: nat)
    requires IsPrime(MODULUS)
    requires Sbox(s) == z && HalfRound(z, 2 * r) == m && Sbox(u) == m && HalfRound(u, 2 * r + 1) == t
    ensures Round(s, r) == t
  {
    hide Sbox, InvSbox, HalfRound;
    SboxInverts(u);
  }

  lemma Round0()
    requires IsPrime(MODULUS)
    ensures Round(State(1, 2, 0), 0)
            == State(325367260632921716507782386182686047078, 204354956026321836382441764843460229152,
                     21175289068098907799853358121196079143)
  {
    hide MulMod, HalfRound;
    var s := State(1, 2, 0);
    var z := State(1, 8, 0);
    var m := State(11400714819323198537, 22801429638646397029, 34202144457969595506);
    var u := State(187642884201086101332412830191019658603, 66630579594486221195671494032470642192,
                   223733279557201756065056930444628255235);
    var t := State(325367260632921716507782386182686047078, 204354956026321836382441764843460229152,
                   21175289068098907799853358121196079143);
    CubeReduces(MODULUS, s.a, z.a, 0);
    CubeReduces(MODULUS, s.b, z.b, 0);
    CubeReduces(MODULUS, s.c, z.c, 0);
    CubeReduces(MODULUS, u.a, m.a, 19415869942730090399997182430705621758928421018534855307662516733288659215370);
    CubeReduces(MODULUS, u.b, m.b, 869323316453187681801115847823004626233298930702550361997665679657831569307);
    CubeReduces(MODULUS, u.c, m.c, 32911851981904385803982557765231919001361850136533093380620024911936577626537);
    HalfIs(z, 0, m, 0, 0, 0);
    HalfIs(u, 1, t, 1, 1, 2);
    RoundIs(s, z, m, u, t, 0);
  }

  lemma Round1()
    requires IsPrime(MODULUS)
    ensures Round(State(325367260632921716507782386182686047078, 204354956026321836382441764843460229152,
                        21175289068098907799853358121196079143), 1)
            == State(115095845198411348962684138138490478434, 224493812786945502137649797167333854772,
                     100333007192694311872152405646250076229)
  {
    hide MulMod, HalfRound;
    var s := State(325367260632921716507782386182686047078, 204354956026321836382441764843460229152,
                   21175289068098907799853358121196079143);
    var z := State(271941948447943295408377091624911436230, 74450891886714116852337578825219059717,
                   322315897151565962998687272680598234415);
    var m := State(260085952092289743820834922583412632955, 62594895531060565276196124603043454927,
                   310459900795912411433946533277745828110);
    var u := State(5115178903898558199611301966656278716, 114513146492432711363176246176176456569,
                   330634707819119984549652697789514441078);
    var t := State(115095845198411348962684138138490478434, 224493812786945502137649797167333854772,
                   100333007192694311872152405646250076229);
    CubeReduces(MODULUS, s.a, z.a, 101223676626651068891802364647274353482427380849404100846098526395759054396306);
    CubeReduces(MODULUS, s.b, z.b, 25079338609611329536127527408057805292525864960096349302353955159655415042043);
    CubeReduces(MODULUS, s.c, z.c, 27902852161287000455846511986142126558791579658887705523613595242535508616);
    CubeReduces(MODULUS, u.a, m.a, 393317290243538872416968058953543460893631405553469931352682396148135493);
    CubeReduces(MODULUS, u.b, m.b, 4412925534062739387746932020429815141471340606359355253022698041264244285786);
    CubeReduces(MODULUS, u.c, m.c, 106219897471427006037073539761958661270097838675101114601528116764547876941066);
    HalfIs(z, 2, m, 2, 2, 2);
    HalfIs(u, 3, t, 1, 1, 2);
    RoundIs(s, z, m, u, t, 1);
  }

  lemma Round2()
    requires IsPrime(MODULUS)
    ensures Round(State(115095845198411348962684138138490478434, 224493812786945502137649797167333854772,
                        100333007192694311872152405646250076229), 2)
            == State(143820838917288783186730996017841089321, 173434040715099185736191782062923555717,
                     63339738973028185386989212115456703798)
  {
    hide MulMod, HalfRound;
    var s := State(115095845198411348962684138138490478434, 224493812786945502137649797167333854772,
                   100333007192694311872152405646250076229);
    var z := State(164963963768361807096553598559345181969, 15808625496051794723158879585303006615,
                   23559780386200622619399887823448665942);
    var m := State(29013966498037568220500699224898655305, 220140995146666019321881253023924639973,
                   227892150036814847229522976081393497785);
    var u := State(303883959456638592169731593771294078178, 333497161254448994707791664997053346089,
                   223402859512377994347188380230263295685);
    var t := State(143820838917288783186730996017841089321, 173434040715099185736191782062923555717,
                   63339738973028185386989212115456703798);
    CubeReduces(MODULUS, s.a, z.a, 4480634251482943365040941443410813108882475201399584622329241109014705032055);
    CubeReduces(MODULUS, s.b, z.b, 33248624493542628497959292391466766189077613105474586160364358867352007325609);
    CubeReduces(MODULUS, s.c, z.c, 2968192357381376956170767044530838799238501445837175485114237928809166048231);
    CubeReduces(MODULUS, u.a, m.a, 82467700352053363884300951400532165961639799651263621447542212125832072314431);
    CubeReduces(MODULUS, u.b, m.b, 109002630737778773130255952069743221291053646240843329638316862398469084641108);
    CubeReduces(MODULUS, u.c, m.c, 32766249818426232718984503356441565795180350326625036331428870514633110178820);
    HalfIs(z, 4, m, 1, 0, 0);
    HalfIs(u, 5, t, 3, 3, 3);
    RoundIs(s, z, m, u, t, 2);
  }

  lemma Round3()
    requires IsPrime(MODULUS)
    ensures Round(State(143820838917288783186730996017841089321, 173434040715099185736191782062923555717,
                        63339738973028185386989212115456703798), 3)
            == State(257479003558774515815951639201510435085, 232681804367252743877052795540407199067,
                     280197297628991047494086480660021858985)
  {
    hide MulMod, HalfRound;
    var s := State(143820838917288783186730996017841089321, 173434040715099185736191782062923555717,
                   63339738973028185386989212115456703798);
    var z := State(217481120314512848688096041461649609539, 312615306943231034138317200761447490883,
                   64596285998706855096348340349578180454);
    var m := State(131609099729086659900722089693975738598, 226743286357804845362343963813096818427,
                   319006632334219129795150376174295668020);
    var u := State(235030660630489170696712793936112849755, 210233461438967398746413235455686415252,
                   257748954700705702352046205755977876685);
    var t := State(257479003558774515815951639201510435085, 232681804367252743877052795540407199067,
                   280197297628991047494086480660021858985);
    CubeReduces(MODULUS, s.a, z.a, 8742306088821408873023441316984745453624867330880034019810976691679479401206);
    CubeReduces(MODULUS, s.b, z.b, 15330756388487457308714795126001307601545282942363984442811679898312208744890);
    CubeReduces(MODULUS, s.c, z.c, 746774299034202279457269138967471317405112023277875095799892582109177572274);
    CubeReduces(MODULUS, u.a, m.a, 38153476714689550232930200061500061468468736373993332289395718563523327449021);
    CubeReduces(MODULUS, u.b, m.b, 27306502487483623830998237731300325931838727250622843891568442530295364255813);
    CubeReduces(MODULUS, u.c, m.c, 50321235218827902158249430826114203413306072714151596976356190401133670517665);
    HalfIs(z, 6, m, 2, 2, 1);
    HalfIs(u, 7, t, 2, 2, 2);
    RoundIs(s, z, m, u, t, 3);
  }

  lemma Round4()
    requires IsPrime(MODULUS)
    ensures Round(State(257479003558774515815951639201510435085, 232681804367252743877052795540407199067,
                        280197297628991047494086480660021858985), 4)
            == State(206881105662320699668524053135339134144, 201737043991304025221032110150356908425,
                     85068808953568193253904341745950909377)
  {
    hide MulMod, HalfRound;
    var s := State(257479003558774515815951639201510435085, 232681804367252743877052795540407199067,
                   280197297628991047494086480660021858985);
    var z := State(223191812183251890786995176459541828280, 266588167661347053359306952018225584389,
                   105640473862857895538679720481367246307);
    var m := State(138047532048831803830245779994266526349, 181443887526926966413958270372273480943,
                   20496193728437808604731753654738341346);
    var u := State(168529957740757085927248098745093646000, 163385896069740411468355440940788221796,
                   46717661032004579489826957717059024263);
    var t := State(206881105662320699668524053135339134144, 201737043991304025221032110150356908425,
                   85068808953568193253904341745950909377);
    CubeReduces(MODULUS, s.a, z.a, 50163290223236145740863517291203190475580463789010040559657419583386169534685);
    CubeReduces(MODULUS, s.b, z.b, 37020972571480609499005386061077440131371461360152480374171663198901826239902);
    CubeReduces(MODULUS, s.c, z.c, 64647596368893280659418628148195115582153525180534221549311095271145591027414);
    CubeReduces(MODULUS, u.a, m.a, 14066689158780981280427341780304374832728593586735282622721057278812145175923);
    CubeReduces(MODULUS, u.b, m.b, 12817527204766865856000748959676976627934015671178937372357076026980524567889);
    CubeReduces(MODULUS, u.c, m.c, 299642787639192366712231092154384933292553396529176150451930553534517750773);
    HalfIs(z, 8, m, 2, 2, 2);
    HalfIs(u, 9, t, 1, 1, 1);
    RoundIs(s, z, m, u, t, 4);
  }

  lemma Round5()
    requires IsPrime(MODULUS)
    ensures Round(State(206881105662320699668524053135339134144, 201737043991304025221032110150356908425,
                        85068808953568193253904341745950909377), 5)
            == State(63301520615099516326051720236856827784, 230194949295275272260580720288515532241,
                     69815284731926101585967322998765937601)
  {
    hide MulMod, HalfRound;
    var s := State(206881105662320699668524053135339134144, 201737043991304025221032110150356908425,
                   85068808953568193253904341745950909377);
    var z := State(320552064128232855170385757354373838210, 113530373799155681119383366104426454435,
                   48397364880051196178809208916056032950);
    var m := State(122467133093795661065637133220759393808, 255727809685656950489410014743880170055,
                   190594800766552465560236572374832947055);
    var u := State(227685357145228141292077157971376186261, 54296418904465433751830885249966730696,
                   234199121262054726529191331094638899108);
    var t := State(63301520615099516326051720236856827784, 230194949295275272260580720288515532241,
                   69815284731926101585967322998765937601);
    CubeReduces(MODULUS, s.a, z.a, 26020943566324064404067196475763186173299812670452569728867889200954959039102);
    CubeReduces(MODULUS, s.b, z.b, 24127788305826169873794148597459386422853088816383494961616109493241603602870);
    CubeReduces(MODULUS, s.c, z.c, 1809137650317316813809300179113462198124031255075692325023083727098305746059);
    CubeReduces(MODULUS, u.a, m.a, 34686929591010994412565943033850904886006749139112596997558806490486763881629);
    CubeReduces(MODULUS, u.b, m.b, 470407368046480681580972703529699787280041584180787931156481952293442115513);
    CubeReduces(MODULUS, u.c, m.c, 37749946344258397166330495838524803826130242204385653480710525088888473943761);
    HalfIs(z, 10, m, 2, 1, 1);
    HalfIs(u, 11, t, 2, 1, 2);
    RoundIs(s, z, m, u, t, 5);
  }

  lemma Round6()
    requires IsPrime(MODULUS)
    ensures Round(State(63301520615099516326051720236856827784, 230194949295275272260580720288515532241,
                        69815284731926101585967322998765937601), 6)
            == State(184449838923584859389829385248073216163, 74312482035922379416833555088403034330,
                     230934167586486838085169416741628837793)
  {
    hide MulMod, HalfRound;
    var s := State(63301520615099516326051720236856827784, 230194949295275272260580720288515532241,
                   69815284731926101585967322998765937601);
    var z := State(61599078546143123767845154617694419310, 82496517579004124743258012736127902213,
                   132072423263407534333632503519128040336);
    var m := State(337767097934697907034407273805603125156, 18382170046620444557846288789614845007,
                   67958075731023854159621494391938181615);
    var u := State(147096308517320955927258323388243598479, 36958951629658475942861778409250218161,
                   193580637180222934599796925243152823139);
    var t := State(184449838923584859389829385248073216163, 74312482035922379416833555088403034330,
                   230934167586486838085169416741628837793);
    CubeReduces(MODULUS, s.a, z.a, 745423333411649447696808567641669382514663487561655727525040894767007574162);
    CubeReduces(MODULUS, s.b, z.b, 35846596444447847658015202718273070597889736582288188918043860737743639640684);
    CubeReduces(MODULUS, s.c, z.c, 1000027851808427172766907756913770731526031732610048945823885299108163200945);
    CubeReduces(MODULUS, u.a, m.a, 9353321808490597481006766794913619494764546965682377156627763764866394389259);
    CubeReduces(MODULUS, u.b, m.b, 148360909094940957490824626500052285504425088618806189810922760126167441602);
    CubeReduces(MODULUS, u.c, m.c, 21317992254974389007681351874929048504724778336797287035539637022133852226892);
    HalfIs(z, 12, m, 0, 1, 1);
    HalfIs(u, 13, t, 1, 1, 1);
    RoundIs(s, z, m, u, t, 6);
  }

  /** The permuted state of (1, 2, 0), and with it the hash of 1 and 2. */
  lemma KnownAnswer()
    requires IsPrime(MODULUS)
    ensures Permutation(State(1, 2, 0))
            == State(184449838923584859389829385248073216163, 74312482035922379416833555088403034330,
                     230934167586486838085169416741628837793)
    ensures RescueHash(1, 2) == 184449838923584859389829385248073216163
  {
    hide Round;
    Round0();
    Round1();
    Round2();
    Round3();
    Round4();
    Round5();
    Round6();
    assert Rounds(State(1, 2, 0), 1) == Round(Rounds(State(1, 2, 0), 0), 0);
    assert Rounds(State(1, 2, 0), 2) == Round(Rounds(State(1, 2, 0), 1), 1);
    assert Rounds(State(1, 2, 0), 3) == Round(Rounds(State(1, 2, 0), 2), 2);
    assert Rounds(State(1, 2, 0), 4) == Round(Rounds(State(1, 2, 0), 3), 3);
    assert Rounds(State(1, 2, 0), 5) == Round(Rounds(State(1, 2, 0), 4), 4);
    assert Rounds(State(1, 2, 0), 6) == Round(Rounds(State(1, 2, 0), 5), 5);
    assert Rounds(State(1, 2, 0), 7) == Round(Rounds(State(1, 2, 0), 6), 6);
  }
}
