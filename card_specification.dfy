/** The query filters the card listings are built from. Each one is a
    predicate on cards; a missing argument makes it accept every card. */
module CardSpecification {
  import opened CardModel

  /** `fragment` stands in `s` from position `i` on. */
  ghost predicate OccursAt(fragment: string, s: string, i: int)
  {
    0 <= i <= |s| - |fragment| && s[i..i + |fragment|] == fragment
  }

  /** `fragment` occurs in `s` at some position. */
  ghost predicate IsSubstring(fragment: string, s: string)
  {
    exists i :: OccursAt(fragment, s, i)
  }

  /** Substring search: `fragment` is a prefix of `s` or of one of its tails. */
  function Occurs(fragment: string, s: string): bool
    decreases |s|
  {
    fragment <= s || (s != [] && Occurs(fragment, s[1..]))
  }

  lemma {:induction false} OccursIsSubstring(fragment: string, s: string)
    ensures Occurs(fragment, s) <==> IsSubstring(fragment, s)
    decreases |s|
  {
    if fragment <= s {
      assert OccursAt(fragment, s, 0);
    } else if s == [] {
    } else {
      OccursIsSubstring(fragment, s[1..]);
      if IsSubstring(fragment, s) {
        var i :| OccursAt(fragment, s, i);
        assert i != 0;
        assert s[1..][i - 1..i - 1 + |fragment|] == fragment;
        assert OccursAt(fragment, s[1..], i - 1);
      }
      if IsSubstring(fragment, s[1..]) {
        var i :| OccursAt(fragment, s[1..], i);
        assert s[i + 1..i + 1 + |fragment|] == fragment;
        assert OccursAt(fragment, s, i + 1);
      }
    }
  }

  function HasOwner(ownerId: Option<int>): (spec: Card -> bool)
    ensures forall c :: spec(c) <==> ownerId.None? || c.owner.id == ownerId.value
  {
    (c: Card) => ownerId.None? || c.owner.id == ownerId.value
  }

  function HasStatus(status: Option<CardStatus>): (spec: Card -> bool)
    ensures forall c :: spec(c) <==> status.None? || c.status == status.value
  {
    (c: Card) => status.None? || c.status == status.value
  }

  /** Matches cards whose stored number contains the fragment; a missing or
      empty fragment matches every card. */
  function CardNumberContains(fragment: Option<string>): (spec: Card -> bool)
    ensures forall c :: spec(c) <==> fragment.None? || IsSubstring(fragment.value, c.cardNumber)
  {
    assert forall c: Card :: fragment.Some? ==> (Occurs(fragment.value, c.cardNumber) <==> IsSubstring(fragment.value, c.cardNumber)) by {
      forall c: Card | fragment.Some? {
        OccursIsSubstring(fragment.value, c.cardNumber);
      }
    }
    (c: Card) => fragment.None? || fragment.value == [] || Occurs(fragment.value, c.cardNumber)
  }

  /** The conjunction of two filters, as specifications are chained. */
  function And(a: Card -> bool, b: Card -> bool): (spec: Card -> bool)
    ensures forall c :: spec(c) <==> a(c) && b(c)
  {
    (c: Card) => a(c) && b(c)
  }

  /** A missing argument never narrows a conjunction. */
  lemma NullFilterIsNeutral(spec: Card -> bool, c: Card)
    ensures And(HasOwner(None), spec)(c) == spec(c)
    ensures And(spec, HasStatus(None))(c) == spec(c)
    ensures And(spec, CardNumberContains(None))(c) == spec(c)
    ensures And(spec, CardNumberContains(Some("")))(c) == spec(c)
  {
    assert OccursAt("", c.cardNumber, 0);
  }
}
