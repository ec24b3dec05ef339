/** `ScopeList`: a set of scopes packed into the bits of a `u32`, bit `n`
    standing for the scope whose discriminant is `n`. */
module Scopes {
  import Bits

  /** Rust's `u32`. */
  type u32 = x: int | 0 <= x < 0x1_0000_0000

  /** `Scope`, a `#[repr(u32)]` enum whose only variant is `Admin = 0`. */
  datatype Scope = Admin
  {
    /** `scope as u32`. */
    function Discriminant(): (d: nat)
      ensures d < 32
    {
      match this
      case Admin => 0
    }
  }

  /** `Scope::variants()`: every variant once, in declaration order, which is
      the order of their discriminants. */
  function Variants(): (vs: seq<Scope>)
    ensures forall s: Scope :: s in vs
    ensures forall i, j :: 0 <= i < j < |vs| ==> vs[i].Discriminant() < vs[j].Discriminant()
  {
    var vs := [Admin];
    assert forall s: Scope :: s.Admin? ==> s in vs;
    vs
  }

  /** `ScopeList(pub u32)`. */
  datatype ScopeList = ScopeList(bits: u32)

  /** `1 << scope as u32`: the number whose only set bit is the scope's. */
  function Bit(s: Scope): (b: u32)
    ensures Bits.TestBit(b, s.Discriminant())
    ensures forall k :: Bits.TestBit(b, k) ==> k == s.Discriminant()
  {
    var d := s.Discriminant();
    Bits.Pow2Widths();
    Bits.Pow2Add(d, 32 - d);
    Bits.Pow2Bit(d, d);
    forall k | Bits.TestBit(Bits.Pow2(d), k)
      ensures k == d
    {
      Bits.Pow2Bit(d, k);
    }
    Bits.Pow2(d)
  }

  /** Whether bit `k` of the list is set. */
  predicate Has(l: ScopeList, k: nat)
  {
    Bits.TestBit(l.bits, k)
  }

  const EMPTY: ScopeList := ScopeList(0)

  /** `ScopeList::from_scope`, also `From<Scope> for ScopeList`. */
  function FromScope(s: Scope): (l: ScopeList)
    ensures forall k :: Has(l, k) <==> k == s.Discriminant()
  {
    ScopeList(Bit(s))
  }

  /** `ScopeList::ADMIN`, defined as `from_scope(Scope::Admin)`. */
  const ADMIN: ScopeList := FromScope(Admin)

  /** `ScopeList::contains`, `self.0 & (1 << scope) != 0`: the list
      contains a scope exactly when the scope's bit is set. */
  function Contains(l: ScopeList, s: Scope): (b: bool)
    ensures b <==> Has(l, s.Discriminant())
  {
    Bits.AndPow2(l.bits, s.Discriminant());
    Bits.And(l.bits, Bit(s)) != 0
  }

  /** `ADMIN` is the list with bit 0 alone, and it contains `Admin`. */
  lemma AdminIsBitZero()
    ensures ADMIN == ScopeList(1)
    ensures Contains(ADMIN, Admin)
  {
  }

  /** A singleton list contains its scope and nothing else; the empty list
      contains nothing. */
  lemma FromScopeContains(s: Scope, t: Scope)
    ensures Contains(FromScope(s), t) <==> s == t
    ensures !Contains(EMPTY, t)
  {
    Bits.Zero(t.Discriminant());
  }

  /** `impl BitOr for ScopeList`: bit `k` of the union is set exactly when
      it is set in one of the operands. */
  function Or(a: ScopeList, b: ScopeList): (u: ScopeList)
    ensures forall k :: Has(u, k) <==> Has(a, k) || Has(b, k)
  {
    Bits.Pow2Widths();
    Bits.Fits(a.bits, b.bits, 32);
    forall k ensures Bits.TestBit(Bits.Or(a.bits, b.bits), k) <==> Has(a, k) || Has(b, k) {
      Bits.OrBit(a.bits, b.bits, k);
    }
    ScopeList(Bits.Or(a.bits, b.bits))
  }

  /** The union contains a scope exactly when one of its operands does. */
  lemma OrContains(a: ScopeList, b: ScopeList, s: Scope)
    ensures Contains(Or(a, b), s) <==> Contains(a, s) || Contains(b, s)
  {
  }

  /** `impl BitOrAssign for ScopeList`: `self.0 |= rhs.0` on the list held
      in `self`, which is `Copy`, so the method takes the old value and
      returns the new one. */
  method OrAssign(self: ScopeList, rhs: ScopeList) returns (updated: ScopeList)
    ensures updated == Or(self, rhs)
    ensures forall k :: Has(updated, k) <==> Has(self, k) || Has(rhs, k)
  {
    updated := self;
    Bits.Pow2Widths();
    Bits.Fits(updated.bits, rhs.bits, 32);
    updated := updated.(bits := Bits.Or(updated.bits, rhs.bits));
  }

  /** `impl BitOrAssign<Scope> for ScopeList`: `self.0 |= 1 << rhs`, which
      sets the scope's bit, leaves every other bit as it was, and equals
      `self | ScopeList::from(rhs)`. */
  method OrAssignScope(self: ScopeList, rhs: Scope) returns (updated: ScopeList)
    ensures updated == Or(self, FromScope(rhs))
    ensures Contains(updated, rhs)
    ensures forall k :: k != rhs.Discriminant() ==> (Has(updated, k) <==> Has(self, k))
  {
    updated := self;
    Bits.Pow2Widths();
    Bits.Fits(updated.bits, Bit(rhs), 32);
    updated := updated.(bits := Bits.Or(updated.bits, Bit(rhs)));
  }

  /** `Iterator::reduce(|union, scope| union | scope)` over the rest of the
      singletons, starting from `acc`: the result contains a scope exactly
      when `acc` does or the scope is among the rest. */
  function Reduce(acc: ScopeList, xs: seq<Scope>): (r: ScopeList)
    ensures forall s :: Contains(r, s) <==> Contains(acc, s) || s in xs
    decreases |xs|
  {
    if xs == [] then acc
    else
      var next := Or(acc, FromScope(xs[0]));
      assert forall s :: Contains(next, s) <==> Contains(acc, s) || s == xs[0] by {
        forall s ensures Contains(next, s) <==> Contains(acc, s) || s == xs[0] {
          OrContains(acc, FromScope(xs[0]), s);
          FromScopeContains(xs[0], s);
        }
      }
      assert xs == [xs[0]] + xs[1..];
      Reduce(next, xs[1..])
  }

  /** `FromIterator<Scope> for ScopeList`, and `FromIterator<&Scope>`, which
      dereferences and delegates: the union of the singletons, or `EMPTY`
      when there are none. The result contains exactly the collected scopes. */
  function Collect(xs: seq<Scope>): (r: ScopeList)
    ensures xs == [] ==> r == EMPTY
    ensures forall s :: Contains(r, s) <==> s in xs
  {
    if xs == [] then
      assert forall s :: !Contains(EMPTY, s) by {
        forall s ensures !Contains(EMPTY, s) {
          FromScopeContains(s, s);
        }
      }
      EMPTY
    else
      assert forall s :: Contains(FromScope(xs[0]), s) <==> s == xs[0] by {
        forall s ensures Contains(FromScope(xs[0]), s) <==> s == xs[0] {
          FromScopeContains(xs[0], s);
        }
      }
      assert xs == [xs[0]] + xs[1..];
      Reduce(FromScope(xs[0]), xs[1..])
  }

  /** The scopes of `vs` whose bit is set in `l`, in the order of `vs`. */
  function Filter(vs: seq<Scope>, l: ScopeList): (r: seq<Scope>)
    ensures forall s :: s in r <==> s in vs && Contains(l, s)
    ensures (forall i, j :: 0 <= i < j < |vs| ==> vs[i].Discriminant() < vs[j].Discriminant()) ==>
              forall i, j :: 0 <= i < j < |r| ==> r[i].Discriminant() < r[j].Discriminant()
  {
    if vs == [] then []
    else if Contains(l, vs[0]) then [vs[0]] + Filter(vs[1..], l)
    else Filter(vs[1..], l)
  }

  /** `From<ScopeList> for Vec<Scope>`: the variants whose bit is set, in
      `variants()` order, each once. */
  function ToVec(l: ScopeList): (r: seq<Scope>)
    ensures forall s :: s in r <==> Contains(l, s)
    ensures forall i, j :: 0 <= i < j < |r| ==> r[i].Discriminant() < r[j].Discriminant()
    ensures forall i, j :: 0 <= i < j < |r| ==> r[i] != r[j]
  {
    Filter(Variants(), l)
  }

  /** The bits of the defined variants: the union of all of them. */
  function DefinedBits(): u32
  {
    Collect(Variants()).bits
  }

  /** Converting to a `Vec<Scope>` and collecting it back keeps the same
      scopes and drops the bits no variant stands for. */
  lemma ToVecRoundTrip(l: ScopeList)
    ensures forall s :: Contains(Collect(ToVec(l)), s) <==> Contains(l, s)
    ensures Collect(ToVec(l)) == ScopeList(Bits.And(l.bits, DefinedBits()))
  {
    assert Variants() == [Admin] && Variants()[1..] == [];
    assert DefinedBits() == 1;
    assert ToVec(l) == (if Contains(l, Admin) then [Admin] + Filter([], l) else Filter([], l));
    Bits.AndOne(l.bits);
    if Contains(l, Admin) {
      assert ToVec(l) == [Admin];
    } else {
      assert ToVec(l) == [];
    }
  }
}
