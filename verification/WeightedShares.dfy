/** Which node each random draw of the weighted strategy selects, and how many select each. */
module WeightedShares {
  import opened Common
  import opened LoadBalancer

  lemma {:induction false} SumOfPrefix(weights: seq<u32>, i: nat)
    requires i <= |weights|
    ensures SumOf(weights[..i]) <= SumOf(weights)
    ensures i < |weights| ==> SumOf(weights[..i + 1]) == SumOf(weights[..i]) + weights[i]
    decreases |weights|
  {
    if i < |weights| {
      assert weights[..i + 1][..i] == weights[..i];
      SumOfPrefix(weights[..|weights| - 1], i);
      assert weights[..|weights| - 1][..i] == weights[..i];
    } else {
      assert weights[..i] == weights;
    }
  }

  lemma {:induction false} SumOfMonotone(weights: seq<u32>, i: nat, j: nat)
    requires i <= j <= |weights|
    ensures SumOf(weights[..i]) <= SumOf(weights[..j])
    decreases j
  {
    if i < j {
      SumOfPrefix(weights, j - 1);
      SumOfMonotone(weights, i, j - 1);
    }
  }

  /** Node `i` holds the tickets above the weights before it, up to and including
      its own; the first node holds ticket 0 as well. */
  ghost predicate HoldsTicket(weights: seq<u32>, i: nat, ticket: nat)
    requires i < |weights|
  {
    (i == 0 || SumOf(weights[..i]) < ticket) && ticket <= SumOf(weights[..i + 1])
  }

  lemma HolderExists(weights: seq<u32>, ticket: nat) returns (h: nat)
    requires ticket < SumOf(weights)
    ensures h < |weights| && HoldsTicket(weights, h, ticket)
  {
    assert weights[..0] == [] && weights[..|weights|] == weights;
    h := 0;
    while h + 1 < |weights| && SumOf(weights[..h + 1]) < ticket
      invariant h < |weights| && (h == 0 || SumOf(weights[..h]) < ticket)
    {
      h := h + 1;
    }
  }

  lemma HolderUnique(weights: seq<u32>, ticket: nat, i: nat, j: nat)
    requires i < |weights| && j < |weights| && HoldsTicket(weights, i, ticket) && HoldsTicket(weights, j, ticket)
    ensures i == j
  {
    if i < j {
      SumOfMonotone(weights, i + 1, j);
    } else if j < i {
      SumOfMonotone(weights, j + 1, i);
    }
  }

  // ----- The walk -------------------------------------------------------------

  /** Steps over nodes whose weights stay positive as i32 and leave something of the ticket. */
  lemma {:induction false} WalkTo(weights: seq<u32>, base: int, i: nat, j: nat)
    requires i <= j <= |weights| && base - SumOf(weights[..i]) <= MAX_I32
    requires i == j || SumOf(weights[..j]) < base
    requires forall k :: i <= k < j ==> weights[k] <= MAX_I32
    ensures Walk(weights, base - SumOf(weights[..i]), i) == Walk(weights, base - SumOf(weights[..j]), j)
    decreases j - i
  {
    if i < j {
      SumOfPrefix(weights, i);
      SumOfMonotone(weights, i + 1, j);
      WalkTo(weights, base, i + 1, j);
    }
  }

  /** A weight past 2^31 leaves less than 2^31 for all the others together. */
  lemma OthersFit(weights: seq<u32>, h: nat, k: nat)
    requires SumOf(weights) <= MAX_U32 && h < |weights| && k < |weights|
    requires weights[h] > MAX_I32
    ensures k != h ==> weights[k] <= MAX_I32
  {
    assert weights[..|weights|] == weights;
    SumOfPrefix(weights, h);
    SumOfPrefix(weights, k);
    if h < k {
      SumOfMonotone(weights, h + 1, k);
      SumOfMonotone(weights, k + 1, |weights|);
    } else if k < h {
      SumOfMonotone(weights, k + 1, h);
      SumOfMonotone(weights, h + 1, |weights|);
    }
  }

  lemma EarlierFit(weights: seq<u32>, h: nat, ticket: nat)
    requires h < |weights| && HoldsTicket(weights, h, ticket) && ticket <= MAX_I32
    ensures forall k :: 0 <= k < h ==> weights[k] <= MAX_I32
  {
    forall k | 0 <= k < h ensures weights[k] <= MAX_I32 {
      SumOfPrefix(weights, k);
      SumOfMonotone(weights, k + 1, h);
    }
  }

  /** What the walk makes of ticket `ticket`, held by node `h`. The first node stands
      in when the ticket outlasts the list; `None` is the abort of an overflowing
      subtraction. */
  function Outcome(weights: seq<u32>, h: nat, ticket: nat): Option<nat>
    requires h < |weights|
  {
    if ticket <= MAX_I32 then
      if weights[h] <= MAX_I32 then Some(h)
      else if weights[h] <= ticket - SumOf(weights[..h]) + MAX_I32 + 1 then None
      else Some(0)
    else
      if weights[0] > MAX_I32 then Some(h)
      else if ticket <= MAX_I32 + weights[0] then None
      else Some(0)
  }

  lemma SmallTicket(weights: seq<u32>, h: nat, ticket: nat)
    requires SumOf(weights) <= MAX_U32 && ticket < SumOf(weights) && ticket <= MAX_I32
    requires h < |weights| && HoldsTicket(weights, h, ticket)
    ensures Walk(weights, AsI32(ticket), 0) == Outcome(weights, h, ticket)
  {
    assert weights[..0] == [] && weights[..|weights|] == weights;
    EarlierFit(weights, h, ticket);
    WalkTo(weights, ticket, 0, h);
    SumOfPrefix(weights, h);
    if weights[h] > MAX_I32 + 1 + ticket - SumOf(weights[..h]) {
      RunsOut(weights, h, ticket);
    }
  }

  /** The wrapped difference outlasts all later weights. */
  lemma RunsOut(weights: seq<u32>, h: nat, ticket: nat)
    requires SumOf(weights) <= MAX_U32 && h < |weights| && ticket <= SumOf(weights[..h + 1])
    requires weights[h] > MAX_I32 + 1 + ticket - SumOf(weights[..h]) && ticket >= SumOf(weights[..h])
    ensures Walk(weights, ticket + MAX_U32 + 1 - SumOf(weights[..h + 1]), h + 1) == Some(0)
  {
    assert weights[..|weights|] == weights;
    SumOfPrefix(weights, h);
    forall k | h + 1 <= k < |weights| ensures weights[k] <= MAX_I32 {
      OthersFit(weights, h, k);
    }
    WalkTo(weights, ticket + MAX_U32 + 1, h + 1, |weights|);
  }

  lemma LargeTicket(weights: seq<u32>, h: nat, ticket: nat)
    requires SumOf(weights) <= MAX_U32 && MAX_I32 < ticket < SumOf(weights)
    requires h < |weights| && HoldsTicket(weights, h, ticket)
    ensures Walk(weights, AsI32(ticket), 0) == Outcome(weights, h, ticket)
  {
    assert weights[..0] == [] && weights[..|weights|] == weights;
    SumOfPrefix(weights, 0);
    SumOfPrefix(weights, h);
    if weights[0] > MAX_I32 && h > 0 {
      forall k | 1 <= k <= h ensures weights[k] <= MAX_I32 {
        OthersFit(weights, 0, k);
      }
      SumOfMonotone(weights, 1, h);
      WalkTo(weights, ticket, 1, h);
    }
  }

  /** Every draw, for every total that fits a u32. */
  lemma PickIsOutcome(weights: seq<u32>, random: u32, h: nat)
    requires 0 < SumOf(weights) <= MAX_U32
    requires h < |weights| && HoldsTicket(weights, h, random % SumOf(weights))
    ensures WeightedPick(weights, random) == Outcome(weights, h, random % SumOf(weights))
  {
    hide SumOf, HoldsTicket, Walk, Outcome;
    var ticket := random % SumOf(weights);
    if ticket <= MAX_I32 {
      SmallTicket(weights, h, ticket);
    } else {
      LargeTicket(weights, h, ticket);
    }
  }

  /** Node `i` can take ticket `ticket`: up to 2^31 - 1 when its weight is at most
      that, or it is the first and the wrapped difference brings the walk round to
      it; beyond, when the first weight is. */
  ghost predicate CanTake(weights: seq<u32>, i: nat, ticket: nat)
    requires i < |weights|
  {
    if ticket <= MAX_I32 then weights[i] <= MAX_I32 || (i == 0 && ticket + MAX_I32 + 1 < weights[0])
    else weights[0] > MAX_I32
  }

  /** When a holder gets its ticket. */
  lemma HolderIsPickedExactlyWhen(weights: seq<u32>, random: u32, i: nat)
    requires 0 < SumOf(weights) <= MAX_U32
    requires i < |weights| && HoldsTicket(weights, i, random % SumOf(weights))
    ensures WeightedPick(weights, random) == Some(i) <==> CanTake(weights, i, random % SumOf(weights))
  {
    hide WeightedPick;
    PickIsOutcome(weights, random, i);
    SumOfPrefix(weights, 0);
    assert weights[..0] == [];
    if i > 0 {
      SumOfMonotone(weights, 1, i);
    }
  }

  /** With weights that fit an i32 together, a draw picks exactly the ticket's holder. */
  lemma PickIsHolder(weights: seq<u32>, random: u32, i: nat)
    requires 0 < SumOf(weights) <= MAX_I32 && i < |weights|
    ensures WeightedPick(weights, random) == Some(i) <==> HoldsTicket(weights, i, random % SumOf(weights))
  {
    hide WeightedPick;
    var ticket := random % SumOf(weights);
    var h := HolderExists(weights, ticket);
    PickIsOutcome(weights, random, h);
    assert weights[..|weights|] == weights;
    SumOfPrefix(weights, h);
    SumOfMonotone(weights, h + 1, |weights|);
    if HoldsTicket(weights, i, ticket) {
      HolderUnique(weights, ticket, i, h);
    }
  }

  /** A later node is picked only with a ticket it holds. */
  lemma LaterPickHolds(weights: seq<u32>, random: u32, i: nat)
    requires 0 < SumOf(weights) <= MAX_U32 && 0 < i < |weights|
    requires WeightedPick(weights, random) == Some(i)
    ensures HoldsTicket(weights, i, random % SumOf(weights))
  {
    hide WeightedPick;
    var h := HolderExists(weights, random % SumOf(weights));
    PickIsOutcome(weights, random, h);
  }

  /** Without any weight the first node stands in; a sum past u32 aborts. */
  lemma PickWithoutTicket(weights: seq<u32>, random: u32)
    ensures SumOf(weights) == 0 ==> WeightedPick(weights, random) == Some(0)
    ensures SumOf(weights) > 0xFFFF_FFFF ==> WeightedPick(weights, random) == None
  {
  }

  // ----- Shares ---------------------------------------------------------------

  /** How many of the tickets from `lo` to `hi - 1` pick node `i`. */
  ghost function Tickets(weights: seq<u32>, i: nat, lo: nat, hi: nat): nat
    decreases hi - lo
  {
    if hi <= lo || hi > MAX_U32 + 1 then 0
    else Tickets(weights, i, lo, hi - 1) + if WeightedPick(weights, hi - 1) == Some(i) then 1 else 0
  }

  lemma {:induction false} TicketsSplit(weights: seq<u32>, i: nat, lo: nat, mid: nat, hi: nat)
    requires lo <= mid <= hi <= MAX_U32 + 1
    ensures Tickets(weights, i, lo, hi) == Tickets(weights, i, lo, mid) + Tickets(weights, i, mid, hi)
    decreases hi
  {
    if mid < hi {
      TicketsSplit(weights, i, lo, mid, hi - 1);
    }
  }

  lemma {:induction false} TicketsAtMost(weights: seq<u32>, i: nat, lo: nat, hi: nat)
    requires lo <= hi
    ensures Tickets(weights, i, lo, hi) <= hi - lo
    decreases hi
  {
    if lo < hi {
      TicketsAtMost(weights, i, lo, hi - 1);
    }
  }

  lemma {:induction false} TicketsAll(weights: seq<u32>, i: nat, lo: nat, hi: nat)
    requires lo <= hi <= MAX_U32 + 1
    requires forall t: u32 :: lo <= t < hi ==> WeightedPick(weights, t) == Some(i)
    ensures Tickets(weights, i, lo, hi) == hi - lo
    decreases hi
  {
    if lo < hi {
      TicketsAll(weights, i, lo, hi - 1);
    }
  }

  lemma {:induction false} TicketsNone(weights: seq<u32>, i: nat, lo: nat, hi: nat)
    requires lo <= hi <= MAX_U32 + 1
    requires forall t: u32 :: lo <= t < hi ==> WeightedPick(weights, t) != Some(i)
    ensures Tickets(weights, i, lo, hi) == 0
    decreases hi
  {
    if lo < hi {
      TicketsNone(weights, i, lo, hi - 1);
    }
  }

  lemma OwnRemainder(t: nat, total: nat)
    requires t < total
    ensures t % total == t
  {
  }

  /** Which tickets pick a later node. */
  lemma LaterPick(weights: seq<u32>, i: nat, t: u32)
    requires t < SumOf(weights) <= MAX_U32 && 0 < i < |weights|
    ensures WeightedPick(weights, t) == Some(i) <==> HoldsTicket(weights, i, t) && CanTake(weights, i, t)
  {
    hide WeightedPick;
    OwnRemainder(t, SumOf(weights));
    if HoldsTicket(weights, i, t) {
      HolderIsPickedExactlyWhen(weights, t, i);
    } else if WeightedPick(weights, t) == Some(i) {
      LaterPickHolds(weights, t, i);
    }
  }

  lemma FirstHolds(weights: seq<u32>, t: nat)
    requires weights != [] && t <= weights[0]
    ensures HoldsTicket(weights, 0, t)
  {
    assert weights[..0] == [];
    SumOfPrefix(weights, 0);
  }

  /** Which of its own tickets pick the first node. */
  lemma FirstPick(weights: seq<u32>, t: u32)
    requires t < SumOf(weights) <= MAX_U32 && weights != [] && t <= weights[0]
    ensures WeightedPick(weights, t) == Some(0) <==> CanTake(weights, 0, t)
  {
    FirstHolds(weights, t);
    hide WeightedPick, SumOf, HoldsTicket, CanTake;
    OwnRemainder(t, SumOf(weights));
    HolderIsPickedExactlyWhen(weights, t, 0);
  }

  predicate LaterTicket(weights: seq<u32>, i: nat, before: nat, upTo: nat, t: u32)
    requires i < |weights|
  {
    before < t <= upTo && if t <= MAX_I32 then weights[i] <= MAX_I32 else weights[0] > MAX_I32
  }

  lemma LaterTicketIs(weights: seq<u32>, i: nat, t: u32)
    requires 0 < i < |weights|
    ensures HoldsTicket(weights, i, t) && CanTake(weights, i, t)
            <==> LaterTicket(weights, i, SumOf(weights[..i]), SumOf(weights[..i + 1]), t)
  {
  }

  /** Counting a later node's tickets, which lie after `before` and up to `upTo`. */
  lemma CountLater(weights: seq<u32>, i: nat, before: nat, upTo: nat, total: nat)
    requires 0 < i < |weights| && weights[0] <= before && before + weights[i] == upTo <= total <= MAX_U32
    requires forall t: u32 :: t < total ==> (WeightedPick(weights, t) == Some(i) <==> LaterTicket(weights, i, before, upTo, t))
    ensures Tickets(weights, i, 0, total) == weights[i] <==>
            weights[i] == 0 || (upTo < total && (weights[0] > MAX_I32 || upTo <= MAX_I32))
  {
    hide WeightedPick, Tickets, SumOf;
    if weights[i] == 0 {
      TicketsNone(weights, i, 0, total);
    } else {
      var from := before + 1;
      TicketsSplit(weights, i, 0, from, total);
      TicketsNone(weights, i, 0, from);
      if upTo == total {
        TicketsAtMost(weights, i, from, total);
      } else if weights[0] > MAX_I32 || upTo <= MAX_I32 {
        TicketsSplit(weights, i, from, upTo + 1, total);
        TicketsAll(weights, i, from, upTo + 1);
        TicketsNone(weights, i, upTo + 1, total);
      } else {
        TicketsSplit(weights, i, from, upTo, total);
        TicketsAtMost(weights, i, from, upTo);
        TicketsNone(weights, i, upTo, total);
      }
    }
  }

  lemma LaterShare(weights: seq<u32>, i: nat)
    requires 0 < SumOf(weights) <= MAX_U32 && 0 < i < |weights|
    ensures Tickets(weights, i, 0, SumOf(weights)) == weights[i] <==>
            || weights[i] == 0
            || (SumOf(weights[..i + 1]) < SumOf(weights) && (weights[0] > MAX_I32 || SumOf(weights[..i + 1]) <= MAX_I32))
  {
    hide SumOf, WeightedPick, Tickets, HoldsTicket, CanTake, LaterTicket;
    var total, before, upTo := SumOf(weights), SumOf(weights[..i]), SumOf(weights[..i + 1]);
    SumOfPrefix(weights, i);
    SumOfPrefix(weights, i + 1);
    FirstWeight(weights, i);
    forall t: u32 | t < total ensures WeightedPick(weights, t) == Some(i) <==> LaterTicket(weights, i, before, upTo, t) {
      LaterPick(weights, i, t);
      LaterTicketIs(weights, i, t);
    }
    CountLater(weights, i, before, upTo, total);
  }

  lemma FirstWeight(weights: seq<u32>, i: nat)
    requires 0 < i < |weights|
    ensures weights[0] <= SumOf(weights[..i])
  {
    assert weights[..0] == [];
    SumOfPrefix(weights, 0);
    SumOfMonotone(weights, 1, i);
  }

  lemma FirstShare(weights: seq<u32>)
    requires 0 < SumOf(weights) <= MAX_U32 && weights != []
    ensures Tickets(weights, 0, 0, SumOf(weights)) == weights[0] <==>
            weights[0] == SumOf(weights) <= MAX_I32
  {
    hide WeightedPick, Tickets;
    var total, w := SumOf(weights), weights[0];
    assert weights[..0] == [] && weights[..|weights|] == weights;
    SumOfPrefix(weights, 0);
    SumOfMonotone(weights, 1, |weights|);
    forall t: u32 | t < total && t <= w
      ensures WeightedPick(weights, t) == Some(0) <==> CanTake(weights, 0, t)
    {
      FirstPick(weights, t);
    }
    if w <= MAX_I32 {
      var upTo := if w < total then w + 1 else total;
      TicketsSplit(weights, 0, 0, upTo, total);
      TicketsAll(weights, 0, 0, upTo);
      TicketsAtMost(weights, 0, upTo, total);
    } else {
      var half := MAX_I32 + 1;
      TicketsSplit(weights, 0, 0, w - half, total);
      TicketsSplit(weights, 0, w - half, half, total);
      TicketsAtMost(weights, 0, 0, w - half);
      TicketsNone(weights, 0, w - half, half);
      TicketsAtMost(weights, 0, half, total);
    }
  }

  /** A node's share of the tickets is its weight in these cases and no others: it is
      the first, has all the weight, and that fits an i32; or it is a later one and
      weighs nothing, or is followed by more weight while its tickets stay within
      an i32 or the first weight does not. */
  lemma ShareIsWeightExactlyWhen(weights: seq<u32>, i: nat)
    requires 0 < SumOf(weights) <= MAX_U32 && i < |weights|
    ensures Tickets(weights, i, 0, SumOf(weights)) == weights[i] <==>
            if i == 0 then weights[0] == SumOf(weights) <= MAX_I32
            else
              || weights[i] == 0
              || (SumOf(weights[..i + 1]) < SumOf(weights) && (weights[0] > MAX_I32 || SumOf(weights[..i + 1]) <= MAX_I32))
  {
    if i == 0 {
      FirstShare(weights);
    } else {
      LaterShare(weights, i);
    }
  }

  /** Of two nodes of weight one, the second is never picked. */
  lemma SecondOfTwoIsNeverPicked(random: u32)
    ensures WeightedPick([1, 1], random) == Some(0)
  {
    assert [1, 1][..1][..0] == [] && [1, 1][..1] == [1];
    assert SumOf([1]) == 1;
    assert SumOf([1, 1]) == 2;
    assert random % 2 == 0 || random % 2 == 1;
    assert Walk([1, 1], AsI32(random % 2), 0) == Some(0);
  }

  /** A draw of two against the weights 1 and 2^31 aborts. */
  lemma LargeWeightAborts()
    ensures WeightedPick([1, 0x8000_0000], 2) == None
  {
    var weights: seq<u32> := [1, 0x8000_0000];
    assert weights[..1] == [1] && [1][..0] == [];
    assert SumOf([1]) == 1;
    assert SumOf(weights) == 0x8000_0001;
    assert Walk(weights, 1, 1) == None;
  }
}
