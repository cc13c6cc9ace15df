/** The matchpoint table of the RSP server: 1021 chains of heap nodes. */
module MatchpointHash {

  const MP_HASH_SIZE: nat := 1021

  /** A matchpoint is identified by its type (the digit of the packet) and its address. */
  datatype Key = Key(kind: nat, addr: nat)

  function Bucket(k: Key): nat {
    k.addr % MP_HASH_SIZE
  }

  class Entry {
    const kind: nat
    const addr: nat
    const instr: nat
    var next: Entry?

    constructor (kind: nat, addr: nat, instr: nat, next: Entry?)
      ensures this.kind == kind && this.addr == addr && this.instr == instr && this.next == next
    {
      this.kind, this.addr, this.instr, this.next := kind, addr, instr, next;
    }

    function Id(): Key {
      Key(kind, addr)
    }
  }

  /** `chain` is the list that starts at `head`. */
  ghost predicate Linked(head: Entry?, chain: seq<Entry>)
    reads chain
  {
    && head == (if |chain| == 0 then null else chain[0])
    && (forall i :: 0 <= i < |chain| ==> chain[i].next == Successor(chain, i))
  }

  function Successor(chain: seq<Entry>, i: nat): Entry? {
    if i + 1 < |chain| then chain[i + 1] else null
  }

  lemma NextOf(head: Entry?, chain: seq<Entry>, i: nat)
    requires Linked(head, chain) && i < |chain|
    ensures chain[i].next == Successor(chain, i)
  {
  }

  lemma LinkedPush(e: Entry, head: Entry?, chain: seq<Entry>)
    requires Linked(head, chain) && e.next == head
    ensures Linked(e, [e] + chain)
  {
    var longer := [e] + chain;
    forall i | 0 <= i < |longer|
      ensures longer[i].next == Successor(longer, i)
    {
      if i > 0 {
        NextOf(head, chain, i - 1);
      }
    }
  }

  /** The chain of bucket `b` holds exactly the entries of the map that hash to `b`, each once. */
  ghost predicate Holds(chain: seq<Entry>, m: map<Key, nat>, b: nat) {
    && (forall i :: 0 <= i < |chain| ==>
          Bucket(chain[i].Id()) == b && chain[i].Id() in m && m[chain[i].Id()] == chain[i].instr)
    && (forall i, j :: 0 <= i < j < |chain| ==> chain[i].Id() != chain[j].Id())
    && (forall k :: k in m && Bucket(k) == b ==> InChain(chain, k))
  }

  ghost predicate InChain(chain: seq<Entry>, k: Key) {
    exists i :: 0 <= i < |chain| && chain[i].Id() == k
  }

  lemma HoldsPushed(chain: seq<Entry>, m: map<Key, nat>, e: Entry, b: nat)
    requires Holds(chain, m, b) && e.Id() !in m && Bucket(e.Id()) == b
    ensures Holds([e] + chain, m[e.Id() := e.instr], b)
  {
    var longer := [e] + chain;
    forall k | k in m[e.Id() := e.instr] && Bucket(k) == b
      ensures InChain(longer, k)
    {
      if k == e.Id() {
        assert longer[0].Id() == k;
      } else {
        var i :| 0 <= i < |chain| && chain[i].Id() == k;
        assert longer[i + 1].Id() == k;
      }
    }
  }

  lemma HoldsDropped(chain: seq<Entry>, m: map<Key, nat>, pos: nat, b: nat)
    requires Holds(chain, m, b) && pos < |chain|
    ensures Holds(chain[..pos] + chain[pos + 1..], m - {chain[pos].Id()}, b)
  {
    var rest := chain[..pos] + chain[pos + 1..];
    forall k | k in m - {chain[pos].Id()} && Bucket(k) == b
      ensures InChain(rest, k)
    {
      assert InChain(chain, k);
      var i :| 0 <= i < |chain| && chain[i].Id() == k;
      assert rest[if i < pos then i else i - 1].Id() == k;
    }
  }

  /** Entries that hash elsewhere do not matter to a bucket. */
  lemma HoldsElsewhere(chain: seq<Entry>, m: map<Key, nat>, m': map<Key, nat>, b: nat)
    requires Holds(chain, m, b)
    requires forall k :: Bucket(k) == b ==> (k in m <==> k in m') && (k in m ==> m[k] == m'[k])
    ensures Holds(chain, m', b)
  {
  }

  ghost predicate Among(chain: seq<Entry>, nodes: set<Entry>) {
    forall i :: 0 <= i < |chain| ==> chain[i] in nodes
  }

  /** The chains together hold exactly the map. */
  ghost predicate Represents(chains: seq<seq<Entry>>, m: map<Key, nat>) {
    && |chains| == MP_HASH_SIZE
    && (forall b :: 0 <= b < MP_HASH_SIZE ==> Holds(chains[b], m, b))
  }

  lemma AddRepresents(chains: seq<seq<Entry>>, m: map<Key, nat>, e: Entry)
    requires Represents(chains, m) && e.Id() !in m
    ensures var b := Bucket(e.Id());
            Represents(chains[b := [e] + chains[b]], m[e.Id() := e.instr])
  {
    var hv := Bucket(e.Id());
    HoldsPushed(chains[hv], m, e, hv);
    forall b | 0 <= b < MP_HASH_SIZE && b != hv
      ensures Holds(chains[b], m[e.Id() := e.instr], b)
    {
      HoldsElsewhere(chains[b], m, m[e.Id() := e.instr], b);
    }
  }

  lemma DeleteRepresents(chains: seq<seq<Entry>>, m: map<Key, nat>, hv: nat, pos: nat)
    requires Represents(chains, m) && hv < MP_HASH_SIZE && pos < |chains[hv]|
    ensures Represents(chains[hv := chains[hv][..pos] + chains[hv][pos + 1..]], m - {chains[hv][pos].Id()})
  {
    var k := chains[hv][pos].Id();
    assert Holds(chains[hv], m, hv);
    HoldsDropped(chains[hv], m, pos, hv);
    forall b | 0 <= b < MP_HASH_SIZE && b != hv
      ensures Holds(chains[b], m - {k}, b)
    {
      HoldsElsewhere(chains[b], m, m - {k}, b);
    }
  }

  /** The node is in no chain but that of bucket `hv`, and there only at position `i`. */
  ghost predicate OnlyAt(chains: seq<seq<Entry>>, node: Entry, hv: nat, i: nat)
    requires hv < |chains|
  {
    && (forall b :: 0 <= b < |chains| && b != hv ==> node !in chains[b])
    && (forall j :: 0 <= j < |chains[hv]| && j != i ==> chains[hv][j] != node)
  }

  lemma ChainsDisjoint(chains: seq<seq<Entry>>, m: map<Key, nat>, hv: nat, i: nat)
    requires Represents(chains, m) && hv < MP_HASH_SIZE && i < |chains[hv]|
    ensures OnlyAt(chains, chains[hv][i], hv, i)
  {
    assert Holds(chains[hv], m, hv);
    forall b | 0 <= b < MP_HASH_SIZE && b != hv
      ensures chains[hv][i] !in chains[b]
    {
      assert Holds(chains[b], m, b);
    }
  }

  class MpHash {
    const buckets: array<Entry?>
    ghost var chains: seq<seq<Entry>>
    ghost var nodes: set<Entry>
    ghost var table: map<Key, nat>

    ghost predicate Valid()
      reads this, buckets, nodes
    {
      && buckets.Length == MP_HASH_SIZE
      && Represents(chains, table)
      && AllLinked(chains, nodes)
    }

    /** Every bucket points to its chain; the chains run through nodes of the table. */
    ghost predicate AllLinked(chains: seq<seq<Entry>>, nodes: set<Entry>)
      reads buckets, nodes
    {
      && buckets.Length == |chains|
      && (forall b :: 0 <= b < |chains| ==> Among(chains[b], nodes) && Linked(buckets[b], chains[b]))
    }

    /** `mp_hash_init` on a new table. */
    constructor ()
      ensures Valid() && fresh(buckets) && nodes == {} && table == map[]
    {
      buckets := new Entry?[MP_HASH_SIZE];
      chains := seq(MP_HASH_SIZE, _ => []);
      nodes := {};
      table := map[];
      new;
      for i := 0 to MP_HASH_SIZE
        invariant forall b :: 0 <= b < i ==> buckets[b] == null
        invariant chains == seq(MP_HASH_SIZE, _ => []) && nodes == {} && table == map[]
        invariant fresh(buckets) && buckets.Length == MP_HASH_SIZE
      {
        buckets[i] := null;
      }
    }

    /** Walk the chain of the key; `prev` is the node before the one found. */
    method Search(kind: nat, addr: nat) returns (prev: Entry?, curr: Entry?, ghost pos: nat)
      requires Valid()
      ensures var chain := chains[Bucket(Key(kind, addr))];
              && pos <= |chain|
              && curr == (if pos < |chain| then chain[pos] else null)
              && prev == (if pos > 0 then chain[pos - 1] else null)
              && (curr != null ==> curr.Id() == Key(kind, addr))
      ensures curr == null <==> Key(kind, addr) !in table
      ensures curr != null ==> curr in nodes && curr.instr == table[Key(kind, addr)]
      ensures prev != null ==> prev in nodes
    {
      var hv := addr % MP_HASH_SIZE;
      ghost var chain := chains[hv];
      assert Linked(buckets[hv], chain) && Holds(chain, table, hv);
      prev, curr, pos := null, buckets[hv], 0;
      while curr != null
        invariant pos <= |chain| && Linked(buckets[hv], chain)
        invariant curr == (if pos < |chain| then chain[pos] else null)
        invariant prev == (if pos > 0 then chain[pos - 1] else null) && (prev != null ==> prev in nodes)
        invariant forall i :: 0 <= i < pos ==> chain[i].Id() != Key(kind, addr)
        decreases |chain| - pos
      {
        if kind == curr.kind && addr == curr.addr {
          return;
        }
        NextOf(buckets[hv], chain, pos);
        prev, curr, pos := curr, curr.next, pos + 1;
      }
      assert !InChain(chain, Key(kind, addr));
    }

    /** Add an entry unless the key is already there. */
    method Add(kind: nat, addr: nat, instr: nat)
      requires Valid()
      modifies this, buckets
      ensures Valid() && fresh(nodes - old(nodes))
      ensures table == if Key(kind, addr) in old(table) then old(table) else old(table)[Key(kind, addr) := instr]
    {
      var prev, curr, pos := Search(kind, addr);
      if curr != null {
        return;
      }
      var hv := addr % MP_HASH_SIZE;
      curr := new Entry(kind, addr, instr, buckets[hv]);
      AddRepresents(chains, table, curr);
      PushFront(hv, curr);
      table := table[Key(kind, addr) := instr];
    }

    /** Make `e`, which already points to the head, the new head of bucket `hv`. */
    method PushFront(hv: nat, e: Entry)
      requires hv < |chains| && AllLinked(chains, nodes)
      requires e.next == buckets[hv] && e !in nodes
      modifies buckets, this`chains, this`nodes
      ensures chains == old(chains)[hv := [e] + old(chains)[hv]] && nodes == old(nodes) + {e}
      ensures AllLinked(chains, nodes)
    {
      assert Linked(buckets[hv], chains[hv]) && Among(chains[hv], nodes);
      LinkedPush(e, buckets[hv], chains[hv]);
      buckets[hv] := e;
      chains := chains[hv := [e] + chains[hv]];
      nodes := nodes + {e};
      forall b | 0 <= b < |chains| && b != hv
        ensures Among(chains[b], nodes) && Linked(buckets[b], chains[b])
      {
        assert old(Linked(buckets[b], chains[b])) && old(Among(chains[b], nodes));
      }
    }

    method Lookup(kind: nat, addr: nat) returns (entry: Entry?)
      requires Valid()
      ensures entry == null <==> Key(kind, addr) !in table
      ensures entry != null ==> entry.Id() == Key(kind, addr) && entry.instr == table[Key(kind, addr)]
    {
      var prev, curr, pos := Search(kind, addr);
      entry := curr;
    }

    /** Unlink the entry of the key, if there is one, and return it. */
    method Delete(kind: nat, addr: nat) returns (entry: Entry?)
      requires Valid()
      modifies this, buckets, nodes
      ensures Valid() && nodes == old(nodes)
      ensures entry == null <==> Key(kind, addr) !in old(table)
      ensures entry != null ==> entry.Id() == Key(kind, addr) && entry.instr == old(table)[Key(kind, addr)]
      ensures table == old(table) - {Key(kind, addr)}
    {
      var prev, curr, pos := Search(kind, addr);
      if curr != null {
        Detach(addr % MP_HASH_SIZE, prev, curr, pos);
      }
      assert table == old(table) - {Key(kind, addr)};
      return curr;
    }

    /** Remove the entry found at position `pos` of a chain. */
    method Detach(hv: nat, prev: Entry?, curr: Entry, ghost pos: nat)
      requires Valid() && hv < MP_HASH_SIZE
      requires pos < |chains[hv]| && curr == chains[hv][pos]
      requires prev == (if pos > 0 then chains[hv][pos - 1] else null) && (prev != null ==> prev in nodes)
      modifies this`chains, this`table, buckets, nodes
      ensures Valid() && table == old(table) - {curr.Id()}
    {
      if prev != null {
        ChainsDisjoint(chains, table, hv, pos - 1);
      }
      DeleteRepresents(chains, table, hv, pos);
      Unlink(hv, prev, curr, pos);
      table := table - {curr.Id()};
    }

    /** Take `curr` out of its list, at the head or behind `prev`. */
    method Unlink(hv: nat, prev: Entry?, curr: Entry, ghost pos: nat)
      requires hv < |chains| && AllLinked(chains, nodes)
      requires pos < |chains[hv]| && curr == chains[hv][pos]
      requires prev == if pos > 0 then chains[hv][pos - 1] else null
      requires prev != null ==> prev in nodes && OnlyAt(chains, prev, hv, pos - 1)
      modifies buckets, this`chains, if prev == null then {} else {prev}
      ensures chains == old(chains)[hv := old(chains)[hv][..pos] + old(chains)[hv][pos + 1..]]
      ensures AllLinked(chains, nodes)
    {
      assert Linked(buckets[hv], chains[hv]) && Among(chains[hv], nodes);
      UnlinkFrom(hv, prev, curr, chains[hv], pos);
      chains := chains[hv := chains[hv][..pos] + chains[hv][pos + 1..]];
      forall b | 0 <= b < |chains| && b != hv
        ensures Among(chains[b], nodes) && Linked(buckets[b], chains[b])
      {
        assert old(Linked(buckets[b], chains[b])) && old(Among(chains[b], nodes));
      }
    }

    /** The updates of the links. */
    method UnlinkFrom(hv: nat, prev: Entry?, curr: Entry, ghost chain: seq<Entry>, ghost pos: nat)
      requires hv < buckets.Length && Linked(buckets[hv], chain)
      requires pos < |chain| && curr == chain[pos]
      requires prev == if pos > 0 then chain[pos - 1] else null
      requires forall j :: 0 <= j < |chain| && j != pos - 1 ==> chain[j] != prev
      modifies buckets, if prev == null then {} else {prev}
      ensures Linked(buckets[hv], chain[..pos] + chain[pos + 1..])
      ensures forall b :: 0 <= b < buckets.Length && b != hv ==> buckets[b] == old(buckets[b])
    {
      NextOf(buckets[hv], chain, pos);
      if prev == null {
        buckets[hv] := curr.next;
      } else {
        prev.next := curr.next;
      }
      ghost var rest := chain[..pos] + chain[pos + 1..];
      forall i | 0 <= i < |rest|
        ensures rest[i].next == Successor(rest, i)
      {
        ghost var j := if i < pos then i else i + 1;
        assert rest[i] == chain[j] && old(chain[j].next) == Successor(chain, j);
      }
    }
  }
}
