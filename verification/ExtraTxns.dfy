/** The extra transactions kept for compact blocks (src/net_processing.cpp): a ring of a fixed size. */
module ExtraTransactions {
  import opened Common
  import opened BlockEncodings

  /** Places of a ring are taken in turn. */
  lemma TurnsDiffer(i: nat, j: nat, size: nat)
    requires i < j < i + size
    ensures i % size != j % size
  {
    if i % size == j % size {
      MulMonotone(1, j / size - i / size, size);
    }
  }

  /** The last of `n` steps before the next that came to a place. */
  lemma TurnOf(n: nat, p: nat, size: nat) returns (i: nat)
    requires p < size <= n
    ensures n - size <= i < n && i % size == p
  {
    var r := n % size;
    i := if p < r then n - r + p else n - r - size + p;
    var q := if p < r then n / size else n / size - 1;
    IsMod(p, q, size, i);
  }

  function EntryOf(tx: Tx): Entry {
    (tx.hash, Some(tx))
  }

  /** The ring holds the last transactions added, as many as it has places; a place not yet used holds a null. */
  ghost predicate HoldsLast(txns: seq<Entry>, size: nat, added: seq<Tx>) {
    if size == 0 || added == [] then txns == []
    else
      && |txns| == size
      && (forall i :: 0 <= i < |added| && |added| - size <= i ==> txns[i % size] == EntryOf(added[i]))
      && (forall p :: |added| <= p < size ==> txns[p] == (0, None))
  }

  /** A ring in use has a null exactly until as many transactions were added as it has places. */
  lemma NullsUntilFull(txns: seq<Entry>, size: nat, added: seq<Tx>)
    requires HoldsLast(txns, size, added)
    ensures Entries(txns)
    ensures NoNulls(txns) <==> size == 0 || added == [] || |added| >= size
  {
    if size > 0 && added != [] {
      forall p | 0 <= p < size
        ensures txns[p] == (0, None) || exists i :: 0 <= i < |added| && txns[p] == EntryOf(added[i])
        ensures p < |added| ==> txns[p].1.Some?
      {
        if p < |added| {
          var i := p;
          if |added| >= size {
            i := TurnOf(|added|, p, size);
          } else {
            IsMod(p, 0, size, p);
          }
          assert txns[i % size] == EntryOf(added[i]);
        }
      }
      if |added| < size {
        assert txns[|added|] == (0, None);
      }
    }
  }

  class ExtraTxns {
    const size: nat
    var txns: seq<Entry>
    var next: nat
    ghost var added: seq<Tx>

    ghost predicate Valid()
      reads this
    {
      HoldsLast(txns, size, added) && (size > 0 ==> next == |added| % size)
    }

    constructor (size: nat)
      ensures Valid() && this.size == size && added == []
    {
      this.size, txns, next, added := size, [], 0, [];
    }

    /** Puts a transaction in the next place. */
    method Add(tx: Tx)
      requires Valid()
      modifies this
      ensures Valid() && added == old(added) + [tx]
    {
      added := added + [tx];
      if size == 0 {
        return;
      }
      if txns == [] {
        txns := seq(size, _ => (0, None));
      }
      AddNext(old(txns), txns, size, old(added), next, tx);
      txns := txns[next := EntryOf(tx)];
      next := (next + 1) % size;
      NextTurn(|old(added)|, size);
    }
  }

  lemma NextTurn(n: nat, size: nat)
    requires size > 0
    ensures (n % size + 1) % size == (n + 1) % size
  {
    var r := n % size;
    if r + 1 < size {
      IsMod(r + 1, n / size, size, n + 1);
    } else {
      IsMod(0, n / size + 1, size, n + 1);
    }
  }

  lemma AddNext(before: seq<Entry>, txns: seq<Entry>, size: nat, added: seq<Tx>, next: nat, tx: Tx)
    requires size > 0 && HoldsLast(before, size, added) && next == |added| % size
    requires |txns| == size && (before != [] ==> txns == before)
    requires before == [] ==> forall p :: 0 <= p < size ==> txns[p] == (0, None)
    ensures HoldsLast(txns[next := EntryOf(tx)], size, added + [tx])
  {
    var n := |added|;
    forall i | 0 <= i < n && n + 1 - size <= i
      ensures i % size != next
    {
      TurnsDiffer(i, n, size);
    }
    if n < size {
      IsMod(n, 0, size, n);
    }
  }
}
