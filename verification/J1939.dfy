/** J1939 identifiers and address claims. */
module J1939 {
  import opened Bits
  import opened Wrappers
  import opened Core

  datatype J1939Error = RequiresExtendedId

  /** The fields of section 5.2 of SAE J1939-21. */
  datatype J1939Id = J1939Id(priority: nat, pgn: nat, sourceAddress: nat, destinationAddress: Option<nat>)

  function FromCanId(id: CanId): Result<J1939Id, J1939Error> {
    if !id.extended then Failure(RequiresExtendedId)
    else
      var raw := id.raw;
      var priority := And(Shr(raw, 26), 0x07);
      var pf := And(Shr(raw, 16), 0xff);
      var ps := And(Shr(raw, 8), 0xff);
      var sourceAddress := And(raw, 0xff);
      var destinationAddress := if pf < 240 then Some(ps) else None;
      var pgn := if pf < 240 then And(Shr(raw, 8), 0x03ff00) else And(Shr(raw, 8), 0x03ffff);
      Success(J1939Id(priority, pgn, sourceAddress, destinationAddress))
  }

  /** Identifiers that can come out of decoding: a destination below PDU format 240, where
      the parameter group number has an empty low byte, and none from 240 on. */
  predicate Canonical(j: J1939Id) {
    && j.priority < 8
    && j.pgn < 0x4_0000
    && j.sourceAddress < 256
    && match j.destinationAddress
       case Some(ps) => ps < 256 && j.pgn % 256 == 0 && j.pgn / 256 % 256 < 240
       case None => j.pgn / 256 % 256 >= 240
  }

  function ToRaw(j: J1939Id): nat {
    j.priority * 0x400_0000 + (j.pgn + j.destinationAddress.GetOr(0)) * 256 + j.sourceAddress
  }

  lemma FieldValues(raw: nat)
    ensures And(Shr(raw, 26), 0x07) == raw / 0x400_0000 % 8
    ensures And(Shr(raw, 16), 0xff) == raw / 0x1_0000 % 256
    ensures And(Shr(raw, 8), 0xff) == raw / 256 % 256
    ensures And(raw, 0xff) == raw % 256
    ensures And(Shr(raw, 8), 0x03ff00) == raw / 0x1_0000 % 1024 * 256
    ensures And(Shr(raw, 8), 0x03ffff) == raw / 256 % 0x4_0000
  {
    Powers();
    ShrIsDiv(raw, 26);
    ShrIsDiv(raw, 16);
    ShrIsDiv(raw, 8);
    ShrIsDiv(Shr(raw, 8), 8);
    SplitAt(raw, 8, 8);
    AndLowBits(Shr(raw, 26), 3);
    AndLowBits(Shr(raw, 16), 8);
    AndLowBits(Shr(raw, 8), 8);
    AndLowBits(Shr(raw, 8), 18);
    AndLowBits(raw, 8);
    AndField(Shr(raw, 8), 8, 10);
    ShlIsTimes(Pow2(10) - 1, 8);
    ShlIsTimes(Shr(Shr(raw, 8), 8) % Pow2(10), 8);
  }

  lemma Powers()
    ensures Pow2(3) == 8 && Pow2(8) == 256 && Pow2(10) == 1024
    ensures Pow2(16) == 0x1_0000 && Pow2(18) == 0x4_0000 && Pow2(26) == 0x400_0000
  {
    assert Pow2(8) == 256 && Pow2(2) == 4 && Pow2(3) == 8;
    Pow2Add(8, 2);
    Pow2Add(8, 8);
    Pow2Add(16, 2);
    Pow2Add(18, 8);
  }

  /** The identifier with priority `p`, the 18 bits `low` after it and source address `sa`. */
  function FromParts(p: nat, low: nat, sa: nat): J1939Id {
    if low / 256 % 256 < 240 then J1939Id(p, low / 256 * 256, sa, Some(low % 256))
    else J1939Id(p, low, sa, None)
  }

  lemma MiddleBits(q: nat)
    ensures q % 0x4_0000 == q / 256 % 1024 * 256 + q % 256
    ensures q % 0x4_0000 / 256 == q / 256 % 1024 && q % 0x4_0000 % 256 == q % 256
    ensures q / 256 % 1024 % 256 == q / 256 % 256
  {
    DivModProduct(q, 256, 1024);
    DivModUnique(q % 0x4_0000, 256, q / 256 % 1024, q % 256);
    DivModProduct(q / 256, 256, 4);
  }

  lemma DecodesFromParts(id: CanId)
    requires id.extended
    ensures FromCanId(id) == Success(FromParts(id.raw / 0x400_0000 % 8, id.raw / 256 % 0x4_0000, id.raw % 256))
  {
    FieldValues(id.raw);
    DivModProduct(id.raw, 256, 256);
    MiddleBits(id.raw / 256);
  }

  /** The fields as arithmetic on the raw value, for both PDU formats. */
  lemma DecodedFields(id: CanId)
    requires id.extended
    ensures var j, format := FromCanId(id).value, id.raw / 0x1_0000 % 256;
            && FromCanId(id).Success?
            && j.priority == id.raw / 0x400_0000 % 8
            && j.sourceAddress == id.raw % 256
            && (format < 240 ==>
                  j.destinationAddress == Some(id.raw / 256 % 256) && j.pgn == id.raw / 0x1_0000 % 1024 * 256)
            && (format >= 240 ==> j.destinationAddress.None? && j.pgn == id.raw / 256 % 0x4_0000)
  {
    FieldValues(id.raw);
  }

  lemma PartsAreCanonical(p: nat, low: nat, sa: nat)
    requires p < 8 && low < 0x4_0000 && sa < 256
    ensures Canonical(FromParts(p, low, sa))
    ensures ToRaw(FromParts(p, low, sa)) == p * 0x400_0000 + low * 256 + sa
  {
    MultipleOf256(low / 256);
  }

  lemma MultipleOf256(x: nat)
    ensures x * 256 % 256 == 0 && x * 256 / 256 == x
  {
  }

  /** Decoding accepts exactly the extended identifiers, and nothing of one is lost. */
  lemma DecodeIsLossless(id: CanId)
    ensures FromCanId(id).Success? <==> id.extended
    ensures id.extended ==> Canonical(FromCanId(id).value) && ToRaw(FromCanId(id).value) == id.raw
  {
    if id.extended {
      DecodesFromParts(id);
      DivModProduct(id.raw, 256, 0x4_0000);
      PartsAreCanonical(id.raw / 0x400_0000 % 8, id.raw / 256 % 0x4_0000, id.raw % 256);
    }
  }

  lemma CanonicalParts(j: J1939Id)
    requires Canonical(j)
    ensures j.pgn + j.destinationAddress.GetOr(0) < 0x4_0000
    ensures FromParts(j.priority, j.pgn + j.destinationAddress.GetOr(0), j.sourceAddress) == j
  {
    DivModUnique(j.pgn + j.destinationAddress.GetOr(0), 256, j.pgn / 256,
                 j.pgn % 256 + j.destinationAddress.GetOr(0));
  }

  lemma PartsOfRaw(p: nat, low: nat, sa: nat, raw: nat)
    requires p < 8 && low < 0x4_0000 && sa < 256
    requires raw == p * 0x400_0000 + low * 256 + sa
    ensures raw / 0x400_0000 % 8 == p && raw / 256 % 0x4_0000 == low && raw % 256 == sa
  {
    var q := p * 0x4_0000 + low;
    DivModUnique(raw, 256, q, sa);
    DivModUnique(q, 0x4_0000, p, low);
    DivModProduct(raw, 256, 0x4_0000);
  }

  /** Every canonical identifier is the decoding of its own raw value. */
  lemma EncodeIsInverse(j: J1939Id)
    requires Canonical(j)
    ensures ToRaw(j) <= MAX_EXTENDED_ID
    ensures FromCanId(CanId(ToRaw(j), true)) == Success(j)
  {
    CanonicalParts(j);
    PartsOfRaw(j.priority, j.pgn + j.destinationAddress.GetOr(0), j.sourceAddress, ToRaw(j));
    DecodesFromParts(CanId(ToRaw(j), true));
  }

  lemma DecodeIsInjective(a: CanId, b: CanId)
    requires a.extended && b.extended && FromCanId(a) == FromCanId(b)
    ensures a == b
  {
    DecodeIsLossless(a);
    DecodeIsLossless(b);
  }

  // ---- address claims ----

  datatype AddressClaimOutcome = KeepAddress | LoseAddress

  function ResolveAddressClaim(local: u64, challenger: u64): AddressClaimOutcome {
    if local <= challenger then KeepAddress else LoseAddress
  }

  type Node = nat

  /** `challenger` claims the address that `local` holds too; claims by nodes that no longer
      hold it are not sent. */
  function Claim(names: map<Node, u64>, holders: set<Node>, local: Node, challenger: Node): set<Node>
    requires holders <= names.Keys
  {
    if local in holders && challenger in holders
       && ResolveAddressClaim(names[local], names[challenger]).LoseAddress?
    then holders - {local} else holders
  }

  /** The holders after a list of (local, challenger) claims. */
  function After(names: map<Node, u64>, holders: set<Node>, claims: seq<(Node, Node)>): (h: set<Node>)
    requires holders <= names.Keys
    ensures h <= holders
  {
    if claims == [] then holders
    else
      var before := After(names, holders, claims[..|claims| - 1]);
      Claim(names, before, claims[|claims| - 1].0, claims[|claims| - 1].1)
  }

  /** How many of the claims made a node give up the address. */
  function Losses(names: map<Node, u64>, holders: set<Node>, claims: seq<(Node, Node)>): nat
    requires holders <= names.Keys
  {
    if claims == [] then 0
    else
      var front := claims[..|claims| - 1];
      Losses(names, holders, front) + if After(names, holders, claims) == After(names, holders, front) then 0 else 1
  }

  function Lowest(names: map<Node, u64>, holders: set<Node>): set<Node>
    requires holders <= names.Keys
  {
    set n | n in holders && forall m | m in holders :: names[n] <= names[m]
  }

  /** No claim between holders changes anything any more. */
  ghost predicate Settled(names: map<Node, u64>, holders: set<Node>)
    requires holders <= names.Keys
  {
    forall local, challenger | local in holders && challenger in holders ::
      Claim(names, holders, local, challenger) == holders
  }

  lemma {:induction false} SomeLowest(names: map<Node, u64>, holders: set<Node>)
    requires holders <= names.Keys && holders != {}
    ensures Lowest(names, holders) != {}
    decreases |holders|
  {
    var n :| n in holders;
    if holders == {n} {
      assert n in Lowest(names, holders);
    } else {
      var rest := holders - {n};
      assert holders == rest + {n};
      SomeLowest(names, rest);
      var m :| m in Lowest(names, rest);
      assert (if names[n] <= names[m] then n else m) in Lowest(names, holders);
    }
  }

  /** A claim keeps every node with the lowest NAME, and makes no other node lowest. */
  lemma ClaimKeepsLowest(names: map<Node, u64>, holders: set<Node>, local: Node, challenger: Node)
    requires holders <= names.Keys
    ensures Lowest(names, Claim(names, holders, local, challenger)) == Lowest(names, holders)
  {
    var h := Claim(names, holders, local, challenger);
    forall n
      ensures n in Lowest(names, h) <==> n in Lowest(names, holders)
    {
      if n in Lowest(names, h) && h != holders {
        assert challenger in h;
        forall m | m in holders
          ensures names[n] <= names[m]
        {
        }
      }
    }
  }

  lemma {:induction false} AfterKeepsLowest(names: map<Node, u64>, holders: set<Node>, claims: seq<(Node, Node)>)
    requires holders <= names.Keys
    ensures Lowest(names, After(names, holders, claims)) == Lowest(names, holders)
    ensures |After(names, holders, claims)| + Losses(names, holders, claims) == |holders|
  {
    if claims != [] {
      var front, last := claims[..|claims| - 1], claims[|claims| - 1];
      AfterKeepsLowest(names, holders, front);
      ClaimKeepsLowest(names, After(names, holders, front), last.0, last.1);
    }
  }

  /** Arbitration is over exactly when only nodes with the lowest NAME hold the address. */
  lemma SettledIff(names: map<Node, u64>, holders: set<Node>)
    requires holders <= names.Keys
    ensures Settled(names, holders) <==> holders == Lowest(names, holders)
  {
    if holders != {} {
      SomeLowest(names, holders);
      var m :| m in Lowest(names, holders);
      if Settled(names, holders) {
        forall n | n in holders
          ensures n in Lowest(names, holders)
        {
          assert Claim(names, holders, n, m) == holders;
        }
      }
    }
  }

  /** Whatever the order of claims: at most one loss per node that is not lowest, and if
      nothing is left to resolve then exactly the nodes with the lowest NAME remain. */
  lemma ArbitrationResult(names: map<Node, u64>, holders: set<Node>, claims: seq<(Node, Node)>)
    requires holders <= names.Keys
    ensures Losses(names, holders, claims) <= |holders| - |Lowest(names, holders)|
    ensures Settled(names, After(names, holders, claims)) <==> After(names, holders, claims) == Lowest(names, holders)
    ensures Settled(names, After(names, holders, claims)) <==>
              Losses(names, holders, claims) == |holders| - |Lowest(names, holders)|
  {
    var h := After(names, holders, claims);
    AfterKeepsLowest(names, holders, claims);
    SettledIff(names, h);
    SubsetSize(Lowest(names, h), h);
  }

  lemma {:induction false} SubsetSize(a: set<Node>, b: set<Node>)
    requires a <= b
    ensures |a| <= |b|
    ensures |a| == |b| ==> a == b
  {
    assert b == a + (b - a);
    assert |b| == |a| + |b - a|;
  }

  predicate DistinctNames(names: map<Node, u64>, holders: set<Node>)
    requires holders <= names.Keys
  {
    forall n, m | n in holders && m in holders && n != m :: names[n] != names[m]
  }

  /** A claim of a lowest node takes the address from every node that is not lowest, whatever
      other claims come in between. */
  lemma {:induction false} ClaimByLowest(names: map<Node, u64>, holders: set<Node>, claims: seq<(Node, Node)>,
                                         n: Node, w: Node)
    requires holders <= names.Keys && w in Lowest(names, holders) && n !in Lowest(names, holders)
    requires (n, w) in claims
    ensures n !in After(names, holders, claims)
  {
    var front, last := claims[..|claims| - 1], claims[|claims| - 1];
    var before := After(names, holders, front);
    AfterKeepsLowest(names, holders, front);
    if (n, w) in front {
      ClaimByLowest(names, holders, front, n, w);
    } else {
      assert last == (n, w);
      assert w in Lowest(names, before) && n !in Lowest(names, before);
    }
  }

  /** Some lowest node claims the address from every node that is not lowest. */
  ghost predicate LowestClaims(names: map<Node, u64>, holders: set<Node>, claims: seq<(Node, Node)>)
    requires holders <= names.Keys
  {
    exists w | w in Lowest(names, holders) ::
      forall n | n in holders && n !in Lowest(names, holders) :: (n, w) in claims
  }

  /** Arbitration is then over, in whatever order these and other claims come. */
  lemma ClaimsSettle(names: map<Node, u64>, holders: set<Node>, claims: seq<(Node, Node)>)
    requires holders <= names.Keys && LowestClaims(names, holders, claims)
    ensures After(names, holders, claims) == Lowest(names, holders)
  {
    var w :| w in Lowest(names, holders)
      && forall n | n in holders && n !in Lowest(names, holders) :: (n, w) in claims;
    var h := After(names, holders, claims);
    AfterKeepsLowest(names, holders, claims);
    forall n | n in h
      ensures n in Lowest(names, holders)
    {
      if n !in Lowest(names, holders) {
        ClaimByLowest(names, holders, claims, n, w);
      }
    }
  }

  /** With distinct NAMEs the one node with the lowest NAME ends up alone once it has claimed
      the address from all others. */
  lemma UniqueHolder(names: map<Node, u64>, holders: set<Node>, claims: seq<(Node, Node)>, winner: Node)
    requires holders <= names.Keys && DistinctNames(names, holders)
    requires winner in holders && forall m | m in holders :: names[winner] <= names[m]
    requires forall n | n in holders && n != winner :: (n, winner) in claims
    ensures After(names, holders, claims) == {winner}
    ensures Losses(names, holders, claims) == |holders| - 1
  {
    assert Lowest(names, holders) == {winner} by {
      forall n | n in Lowest(names, holders)
        ensures n == winner
      {
      }
    }
    ClaimsSettle(names, holders, claims);
    AfterKeepsLowest(names, holders, claims);
  }
}
