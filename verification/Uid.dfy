/**
 The 48-bit unique IDs of RDM devices: a 16-bit manufacturer ID over a 32-bit device ID, the
 comparisons the library makes on them, and the address each one stands for.
 */
module Uids {

  type ManId = x: int | 0 <= x < 0x1_0000
  type DevId = x: int | 0 <= x < 0x1_0000_0000

  datatype Uid = Uid(man: ManId, dev: DevId)

  const BROADCAST_ALL := Uid(0xffff, 0xffff_ffff)
  const UID_MAX := Uid(0xffff, 0xffff_fffe)

  predicate IsEq(a: Uid, b: Uid) {
    a.man == b.man && a.dev == b.dev
  }

  predicate IsLt(a: Uid, b: Uid) {
    a.man < b.man || (a.man == b.man && a.dev < b.dev)
  }

  predicate IsGt(a: Uid, b: Uid) {
    a.man > b.man || (a.man == b.man && a.dev > b.dev)
  }

  predicate IsBroadcast(u: Uid) {
    u.dev == 0xffff_ffff
  }

  /** Does a packet addressed to `alias` target the device `u`? */
  predicate IsTarget(u: Uid, alias: Uid) {
    ((alias.man == 0xffff || alias.man == u.man) && alias.dev == 0xffff_ffff) || IsEq(u, alias)
  }

  // ---------- addresses ----------

  type Address = x: int | 0 <= x < 0x1_0000_0000_0000

  const MAX_ADDRESS: Address := 0xffff_ffff_fffe

  /** The two fields of a UID side by side, as one 48-bit number. */
  function Value(u: Uid): Address {
    u.man * 0x1_0000_0000 + u.dev
  }

  /** The UID at an address. The casts to the field widths drop the higher bits. */
  function FromValue(v: nat): Uid {
    Uid((v / 0x1_0000_0000) % 0x1_0000, v % 0x1_0000_0000)
  }

  lemma {:induction false} ValueRoundTrip(v: Address)
    ensures Value(FromValue(v)) == v
  {
  }

  lemma {:induction false} QuotientAndRemainder(m: nat, d: nat)
    requires d < 0x1_0000_0000
    ensures (m * 0x1_0000_0000 + d) / 0x1_0000_0000 == m && (m * 0x1_0000_0000 + d) % 0x1_0000_0000 == d
  {
  }

  /** The field-wise comparisons are the order of the addresses, and an address names one UID. */
  lemma {:induction false} OrderIsAddressOrder(a: Uid, b: Uid)
    ensures IsLt(a, b) <==> Value(a) < Value(b)
    ensures IsGt(a, b) <==> Value(a) > Value(b)
    ensures IsEq(a, b) <==> Value(a) == Value(b)
    ensures IsEq(a, b) <==> a == b
  {
    if a.man < b.man {
      assert (a.man + 1) * 0x1_0000_0000 <= b.man * 0x1_0000_0000;
    } else if b.man < a.man {
      assert (b.man + 1) * 0x1_0000_0000 <= a.man * 0x1_0000_0000;
    }
  }

  /** Is `a` the last address of a manufacturer's block? */
  predicate IsBroadcastAddress(a: Address) {
    a % 0x1_0000_0000 == 0xffff_ffff
  }

  /** Does a packet sent to the address `dest` target the device at the address `a`? */
  predicate Reaches(dest: Address, a: Address) {
    || (IsBroadcastAddress(dest) && (dest / 0x1_0000_0000 == 0xffff || dest / 0x1_0000_0000 == a / 0x1_0000_0000))
    || a == dest
  }

  lemma {:induction false} AddressNamesUid(a: Uid, b: Uid)
    ensures IsEq(a, b) <==> Value(a) == Value(b)
  {
    OrderIsAddressOrder(a, b);
  }

  lemma {:induction false} AddressPredicatesAgree(u: Uid, alias: Uid)
    ensures IsBroadcast(u) <==> IsBroadcastAddress(Value(u))
    ensures IsTarget(u, alias) <==> Reaches(Value(alias), Value(u))
  {
    QuotientAndRemainder(u.man, u.dev);
    QuotientAndRemainder(alias.man, alias.dev);
    AddressNamesUid(u, alias);
  }

  /**
   A packet addressed below BROADCAST_ALL reaches, besides its addressee, only devices whose
   addresses lie below its own: a manufacturer's broadcast is that manufacturer's last address.
   */
  lemma {:induction false} ReachesAtOrBelow(dest: Address, a: Address)
    requires Reaches(dest, a) && dest <= MAX_ADDRESS
    ensures a <= dest
    ensures !IsBroadcastAddress(dest) ==> a == dest
  {
  }
}
