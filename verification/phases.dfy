/**
 The eleven conversation phases, their fixed total order, and
 `move_to_next_phase`, which steps one place along the order and saturates at
 the final phase.
 */
module Phases {

  datatype Phase =
    | Greeting
    | CollectName
    | CollectEmail
    | CollectPhone
    | CollectExp
    | CollectPosition
    | CollectLocation
    | CollectTechStack
    | AskQuestions
    | Summary
    | End

  /** The order table of `move_to_next_phase`. */
  const Order: seq<Phase> := [
    Greeting, CollectName, CollectEmail, CollectPhone,
    CollectExp, CollectPosition, CollectLocation, CollectTechStack,
    AskQuestions, Summary, End
  ]

  const LastIndex: nat := 10

  /** Position of a phase in the conversation (what `order.index` finds). */
  function Index(p: Phase): (i: nat)
    ensures i < |Order| && Order[i] == p
  {
    match p
    case Greeting => 0
    case CollectName => 1
    case CollectEmail => 2
    case CollectPhone => 3
    case CollectExp => 4
    case CollectPosition => 5
    case CollectLocation => 6
    case CollectTechStack => 7
    case AskQuestions => 8
    case Summary => 9
    case End => 10
  }

  /** The table lists every phase exactly once, so `Index` inverts it. */
  lemma OrderIsBijective()
    ensures |Order| == LastIndex + 1
    ensures forall i :: 0 <= i < |Order| ==> Index(Order[i]) == i
    ensures forall p: Phase :: p in Order
  {
    forall i | 0 <= i < |Order| ensures Index(Order[i]) == i {
      if i < 4 {
        assert i == 0 || i == 1 || i == 2 || i == 3;
      } else if i < 8 {
        assert i == 4 || i == 5 || i == 6 || i == 7;
      } else {
        assert i == 8 || i == 9 || i == 10;
      }
    }
    forall p: Phase ensures p in Order {
      assert Order[Index(p)] == p;
    }
  }

  /** `move_to_next_phase`: `order[min(idx + 1, len(order) - 1)]`. */
  function Advance(p: Phase): (q: Phase)
    ensures Index(q) == if Index(p) < LastIndex then Index(p) + 1 else LastIndex
  {
    var i := Index(p) + 1;
    var q := Order[if i < LastIndex then i else LastIndex];
    OrderIsBijective();
    q
  }

  /** Advancing out of the final phase is a no-op. */
  lemma AdvanceEnd()
    ensures Advance(End) == End
  {
  }

  /** `k` successive advances. */
  function AdvanceN(p: Phase, k: nat): Phase
    decreases k
  {
    if k == 0 then p else AdvanceN(Advance(p), k - 1)
  }

  /** `k` advances move `k` places, clamped at the final phase. */
  lemma {:induction false} AdvanceNIndex(p: Phase, k: nat)
    ensures Index(AdvanceN(p, k)) == if Index(p) + k < LastIndex then Index(p) + k else LastIndex
    decreases k
  {
    if k > 0 {
      AdvanceNIndex(Advance(p), k - 1);
    }
  }

  /** The phases visited by `k` advances from `p`, including `p` itself. */
  function Walk(p: Phase, k: nat): (w: seq<Phase>)
    ensures |w| == k + 1
  {
    seq(k + 1, i requires 0 <= i <= k => AdvanceN(p, i))
  }

  /** Ten advances from the greeting visit every phase exactly once, in the
      table's order, and stop at the final phase. */
  lemma TenAdvancesVisitAll()
    ensures Walk(Greeting, 10) == Order
    ensures AdvanceN(Greeting, 10) == End
    ensures forall i, j :: 0 <= i < j <= 10 ==> Walk(Greeting, 10)[i] != Walk(Greeting, 10)[j]
  {
    OrderIsBijective();
    forall i | 0 <= i <= 10 ensures AdvanceN(Greeting, i) == Order[i] {
      AdvanceNIndex(Greeting, i);
    }
  }

  /** Advancing never moves backwards, and stays put only at the end. */
  lemma AdvanceMonotone(p: Phase)
    ensures Index(p) <= Index(Advance(p))
    ensures Advance(p) == p <==> p == End
  {
  }
}
