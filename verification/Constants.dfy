/** The concrete parameters of the code, and the facts about them that need no primality. */
module Constants {
  import opened ModArith
  import opened Poseidon
  import opened Fields
  import Basics
  import Curves

  /** The mixing matrix and its inverse modulo FR_MODULUS. */
  const MDS := Mat(
    Vec(0x1B8114C381B922FD5D6D241210E2D8A68AD5744053BA9E776118DE4107B51ACE,
        0x3DF32E4CC4CB2ED20E5D21899CF5331775990CCAEC4C09B4E3717213FCC0D763,
        0x3F05C4DF7A6664DABE258779BF548EB4007F33601591080B3ECD34AEA0E1EDC1),
    Vec(0x404D21073985D14E432A4AD76D3FAE06CA74314B950FE7B1D7F501CD31A8B374,
        0xB2CC8704264C6BD81BC620E9E524D4B73E9B2317679422FF7FA1603955649F1,
        0xFDF664DA55059FA5A9388C641035D496D0BB519834348B4E2A8FC8C637F1A1F),
    Vec(0x5E1D3DBECDA6214343E24A47F45C5D033197AD01B65A730AF95DC57E90C49140,
        0x6BD72F9CFC53AF9D931896E77EA5C61244CB6D5FAE8954F37DC7B9002F5AA78A,
        0x4997C5AA3A5FA07BCAF880A9054BEF831EFFBD9CD58E46D9BB4FB88EF99DE0DB))

  const MDS_INVERSE := Mat(
    Vec(0x7A411686D9DA930FAAAF812F4B5F38CF8393D95330FC2757FA044416BD7612F,
        0x3ACB4A308470F0EE60DECB5B3BCC333F1F37548DA7BC7F169E55ADEE35F4C552,
        0x71E686D2733D8F1F336BFAA1682E798415BB2D6E26901FA6B3BC8BD5B3826492),
    Vec(0xC314C5679A1A6ECEF2B59C7BACAC6FFB4ECA7C8FE8C2233ABDFC289BB1B5C6C,
        0x2A77722EDE8E7777089F12B907FD07DDE00EB830D9C2003BE0F93E79517998AD,
        0x1148FCB77B5E2380FF6955FC600153F9AE37F87C7C8C23B35414E17263DE404B),
    Vec(0x6CAABF545F4CD8815D3286155897429659DD4239D4D4DE6EFC6D4FF35E28E860,
        0x4237DBAC0C0ED10C95A56D63E2633AD8274BAB42AA3D79213B43D5E767E890D6,
        0x23B1150150DA4BF550A10C7B119A6453BE82CDAD58BBAF74F4426E56173F89A1))

  /** 5 times this exponent is one modulo FR_MODULUS - 1. */
  const FIFTH_ROOT: nat := 0x2E5F0FBADD72321CE14A56699D73F002217F0E679998F19933333332CCCCCCCD

  /** The Edwards coefficient of Jubjub, and a square root of -1. */
  const EDWARDS_D: int := 0x2A9318E74BFA2B48F5FD9207E6BD7FD4292D7F6D37579D2601065FD6D6343EB1

  const ROOT_OF_MINUS_ONE: int := 0x8D51CCCE760304D0EC030002760300000001000000000000

  lemma LeftInverse0()
    ensures Cong(FR_MODULUS, Dot(MDS_INVERSE.r0, Column(MDS, 0)), 1)
    ensures Cong(FR_MODULUS, Dot(MDS_INVERSE.r0, Column(MDS, 1)), 0)
    ensures Cong(FR_MODULUS, Dot(MDS_INVERSE.r0, Column(MDS, 2)), 0)
  {
    hide Cong;
    CongIntro(FR_MODULUS, Dot(MDS_INVERSE.r0, Column(MDS, 0)), 1,
              0x7EE449F1926BEA72CB8822BED86FD604464EF1C682CABF00E2CE4C084A738F79);
    CongIntro(FR_MODULUS, Dot(MDS_INVERSE.r0, Column(MDS, 1)), 0,
              0x73B46F15EACB9D9B70C6FB31311101F9B3C3E2DFEBAF736064DCFCE956A0A713);
    CongIntro(FR_MODULUS, Dot(MDS_INVERSE.r0, Column(MDS, 2)), 0,
              0x548265BC4F75D4D6E480357639CA72903C74B3DD52B373E17DC05DF7D319C943);
  }

  lemma LeftInverse1()
    ensures Cong(FR_MODULUS, Dot(MDS_INVERSE.r1, Column(MDS, 0)), 0)
    ensures Cong(FR_MODULUS, Dot(MDS_INVERSE.r1, Column(MDS, 1)), 1)
    ensures Cong(FR_MODULUS, Dot(MDS_INVERSE.r1, Column(MDS, 2)), 0)
  {
    hide Cong;
    CongIntro(FR_MODULUS, Dot(MDS_INVERSE.r1, Column(MDS, 0)), 0,
              0x287AE08014A4739F7CB60178B6498D04C53731EE4A48E0F32A398913268C0A0C);
    CongIntro(FR_MODULUS, Dot(MDS_INVERSE.r1, Column(MDS, 1)), 1,
              0x1AB031FC0268036985C0BBD2A1CFC97800C0DB6DD8C7A1BE5174AEE78371170E);
    CongIntro(FR_MODULUS, Dot(MDS_INVERSE.r1, Column(MDS, 2)), 0,
              0x176A60DAA49D023BD3426EA845863AA2940CE343A8C92EF014C8E36D438C5888);
  }

  lemma LeftInverse2()
    ensures Cong(FR_MODULUS, Dot(MDS_INVERSE.r2, Column(MDS, 0)), 0)
    ensures Cong(FR_MODULUS, Dot(MDS_INVERSE.r2, Column(MDS, 1)), 0)
    ensures Cong(FR_MODULUS, Dot(MDS_INVERSE.r2, Column(MDS, 2)), 1)
  {
    hide Cong;
    CongIntro(FR_MODULUS, Dot(MDS_INVERSE.r2, Column(MDS, 0)), 0,
              0x5B7C67FA07ED0616E68968F0E5F161B3614CC14DDC49B16F2CA25DBC49969978);
    CongIntro(FR_MODULUS, Dot(MDS_INVERSE.r2, Column(MDS, 1)), 0,
              0x61A78683099B1DDF56AFA93B1802A9565988A2D6F16C18C4986DCFB5D2BE1460);
    CongIntro(FR_MODULUS, Dot(MDS_INVERSE.r2, Column(MDS, 2)), 1,
              0x5ACC8F0984627D2BC66F242BD3407B80B50F38F89E32437770B3E33864E5F304);
  }

  lemma RightInverse0()
    ensures Cong(FR_MODULUS, Dot(MDS.r0, Column(MDS_INVERSE, 0)), 1)
    ensures Cong(FR_MODULUS, Dot(MDS.r0, Column(MDS_INVERSE, 1)), 0)
    ensures Cong(FR_MODULUS, Dot(MDS.r0, Column(MDS_INVERSE, 2)), 0)
  {
    hide Cong;
    CongIntro(FR_MODULUS, Dot(MDS.r0, Column(MDS_INVERSE, 0)), 1,
              0x43673FD0C42D884700B06271A6F2737869AED61BACE16956D5BD176DB5F57BF5);
    CongIntro(FR_MODULUS, Dot(MDS.r0, Column(MDS_INVERSE, 1)), 0,
              0x48A40B318FEAD7F80D8F1E39E400CD0BE373FEFF4C0A01F2AAB8445E277BC139);
    CongIntro(FR_MODULUS, Dot(MDS.r0, Column(MDS_INVERSE, 2)), 0,
              0x37A9C59B38FBD25B18BFDC706FF5F9B8BE0541150F26BA584B8DA7720D616ADE);
  }

  lemma RightInverse1()
    ensures Cong(FR_MODULUS, Dot(MDS.r1, Column(MDS_INVERSE, 0)), 0)
    ensures Cong(FR_MODULUS, Dot(MDS.r1, Column(MDS_INVERSE, 1)), 1)
    ensures Cong(FR_MODULUS, Dot(MDS.r1, Column(MDS_INVERSE, 2)), 0)
  {
    hide Cong;
    CongIntro(FR_MODULUS, Dot(MDS.r1, Column(MDS_INVERSE, 0)), 0,
              0x144AB896E2EA334CD738A907B3D7904A59C24743DDC5DC80855C562E0CF69798);
    CongIntro(FR_MODULUS, Dot(MDS.r1, Column(MDS_INVERSE, 1)), 1,
              0x2DC5606A5B4684E1ABD49BD9EFA08DE4679EB6ADA2FCB1EE7F7101D4F3DB14EE);
    CongIntro(FR_MODULUS, Dot(MDS.r1, Column(MDS_INVERSE, 2)), 0,
              0x45BAC3C6369D881ED602EC9D3123276D81FA1CA26D6B90CCE391290BE8849642);
  }

  lemma RightInverse2()
    ensures Cong(FR_MODULUS, Dot(MDS.r2, Column(MDS_INVERSE, 0)), 0)
    ensures Cong(FR_MODULUS, Dot(MDS.r2, Column(MDS_INVERSE, 1)), 0)
    ensures Cong(FR_MODULUS, Dot(MDS.r2, Column(MDS_INVERSE, 2)), 1)
  {
    hide Cong;
    CongIntro(FR_MODULUS, Dot(MDS.r2, Column(MDS_INVERSE, 0)), 0,
              0x56874020D56828F1AB3D0278ED1A264EFD09771FA0142C3A171C28100F14FB18);
    CongIntro(FR_MODULUS, Dot(MDS.r2, Column(MDS_INVERSE, 1)), 0,
              0x81455E5FA7EE4B26459E35CEF8D638EA542C624F556671C54042101C5DA115D4);
    CongIntro(FR_MODULUS, Dot(MDS.r2, Column(MDS_INVERSE, 2)), 1,
              0x83346ABBF9C25DDF6B330471B6ED19A02AD17963A9E688F14FC8C4E588FA08A8);
  }

  lemma MatricesInvert()
    ensures ProductIsIdentity(FR_MODULUS, MDS_INVERSE, MDS)
    ensures ProductIsIdentity(FR_MODULUS, MDS, MDS_INVERSE)
  {
    hide Cong, Dot;
    LeftInverse0(); LeftInverse1(); LeftInverse2();
    RightInverse0(); RightInverse1(); RightInverse2();
  }

  /** With the matrix of the code and any nonempty table, the permutation is invertible as soon as the
      modulus is prime. */
  lemma PermutationInvertible(constants: seq<Vec>)
    requires IsPrime(FR_MODULUS) && |constants| >= 1
    ensures Invertible(Params(FR_MODULUS, MDS, constants), FIFTH_ROOT, MDS_INVERSE)
  {
    hide IsPrime;
    MatricesInvert();
  }

  lemma SmallPowers()
    ensures Basics.Pow2(8) == 256 && Basics.Pow2(2) == 4 && Basics.Pow2(1) == 2
  {
  }

  lemma FieldSize()
    ensures Basics.Pow2(254) < FR_MODULUS < Basics.Pow2(255)
  {
    SmallPowers();
    hide Basics.Pow2;
    Basics.Pow2Add(8, 8);
    Basics.Pow2Add(16, 16);
    Basics.Pow2Add(32, 32);
    Basics.Pow2Add(64, 64);
    Basics.Pow2Add(128, 128);
    Basics.Pow2Add(1, 255);
    Basics.Pow2Add(2, 254);
  }

  /** Jubjub meets the curve hypotheses if its modulus is prime and its coefficient is no square. */
  lemma JubjubParameters()
    requires IsPrime(FR_MODULUS) && forall x :: !Cong(FR_MODULUS, Curves.Square(x), EDWARDS_D)
    ensures Curves.Parameters(FR_MODULUS, EDWARDS_D, ROOT_OF_MINUS_ONE)
    ensures Basics.Pow2(254) < FR_MODULUS < Basics.Pow2(255)
  {
    hide IsPrime;
    FieldSize();
  }

  /** The modulus is that of the curve family: x^4 - x^2 + 1 for the parameter of BLS12-381. */
  lemma ModulusOfFamily()
    ensures var x := -0xD201000000010000; FR_MODULUS == x * x * x * x - x * x + 1
  {
  }

  /** The coefficient is -(10240/10241) modulo p. */
  lemma CoefficientOfJubjub()
    ensures 0 <= EDWARDS_D < FR_MODULUS && (EDWARDS_D * 10241 + 10240) % FR_MODULUS == 0
  {
  }
}
