/** The contact relation collection contactList and the inline state setters
    of ConFind. A contact list keeps four parallel stores (source residue,
    destination residue, degree, annotation), a nested lookup map from a
    residue pair to the position of its latest record, and the ordered set of
    canonical residue pairs. */
module ConDeg {
  import opened ContactOrder
  import MstUtils

  datatype Option<T> = None | Some(value: T)

  type Lookup = map<Residue, map<Residue, int>>

  /** The entry m[x][y] of a nested lookup map, when there is one. */
  function Get(m: Lookup, x: Residue, y: Residue): Option<int>
  {
    if x in m && y in m[x] then Some(m[x][y]) else None
  }

  /** The nested map write m[a][b] = v (operator[] creates the inner map of a
      when a has none yet): only the entry (a, b) changes. */
  function Put(m: Lookup, a: Residue, b: Residue, v: int): (r: Lookup)
    ensures forall x, y :: Get(r, x, y) == if x == a && y == b then Some(v) else Get(m, x, y)
  {
    m[a := (if a in m then m[a] else map[])[b := v]]
  }

  /** The pair addContact files in the ordered set: the lower residue index
      first for an undirected contact, (a, b) as given for a directed one. */
  function CanonPair(a: Residue, b: Residue, directional: bool): (r: ResiduePair)
    ensures directional ==> r == (a, b)
    ensures !directional ==> multiset{r.0, r.1} == multiset{a, b} && r.0.residueIndex <= r.1.residueIndex
    ensures a.residueIndex <= b.residueIndex ==> r == (a, b)
  {
    if !directional && a.residueIndex > b.residueIndex then (b, a) else (a, b)
  }

  /** The store s rearranged so that position t holds what s held at p[t]. */
  function Permute<X>(s: seq<X>, p: seq<int>): (r: seq<X>)
    requires forall t :: 0 <= t < |p| ==> 0 <= p[t] < |s|
    ensures |r| == |p| && forall t :: 0 <= t < |p| ==> r[t] == s[p[t]]
  {
    seq(|p|, t requires 0 <= t < |p| => s[p[t]])
  }

  /** The lookup map with every stored position v replaced by inv[v]. */
  function Remap(m: Lookup, inv: seq<int>): (r: Lookup)
    requires forall x, y :: Get(m, x, y).Some? ==> 0 <= Get(m, x, y).value < |inv|
    ensures forall x, y :: Get(r, x, y) == if Get(m, x, y).Some? then Some(inv[Get(m, x, y).value]) else None
  {
    map a | a in m :: map b | b in m[a] :: if 0 <= m[a][b] < |inv| then inv[m[a][b]] else 0
  }

  /** The inverse of a permutation of 0 .. n - 1. */
  method Inverse(p: seq<int>, n: nat) returns (inv: seq<int>)
    requires MstUtils.IsPermutation(p, n)
    ensures Inverses(p, inv, n)
  {
    MstUtils.PermutationRange(p, n);
    MstUtils.PermutationInjective(p, n);
    inv := seq(n, _ => 0);
    for t := 0 to n
      invariant |inv| == n
      invariant forall v :: 0 <= v < n ==> 0 <= inv[v] < n
      invariant forall u :: 0 <= u < t ==> inv[p[u]] == u
    {
      inv := inv[p[t] := t];
    }
    forall v | 0 <= v < n
      ensures p[inv[v]] == v
    {
      assert v in p;
      var u :| 0 <= u < n && p[u] == v;
      assert inv[p[u]] == u;
    }
  }

  /** Record v of the stores connects a to b: as given, or reversed when it
      was added as undirected. */
  ghost predicate Links(ri: seq<Residue>, rj: seq<Residue>, dir: seq<bool>, v: int, a: Residue, b: Residue)
  {
    && 0 <= v < |ri| && v < |rj| && v < |dir|
    && ((ri[v] == a && rj[v] == b) || (!dir[v] && ri[v] == b && rj[v] == a))
  }

  /** The pair record i put in the ordered set. */
  ghost function Canon(ri: seq<Residue>, rj: seq<Residue>, dir: seq<bool>, i: int): ResiduePair
    requires 0 <= i < |ri| && i < |rj| && i < |dir|
  {
    CanonPair(ri[i], rj[i], dir[i])
  }

  /** Each map entry names a record connecting its two residues. */
  ghost predicate MapSound(ri: seq<Residue>, rj: seq<Residue>, dir: seq<bool>, m: Lookup)
  {
    forall x, y :: Get(m, x, y).Some? ==> Links(ri, rj, dir, Get(m, x, y).value, x, y)
  }

  /** Each record is reachable through the map in its direction, and in the
      reverse one when undirected. */
  ghost predicate MapComplete(ri: seq<Residue>, rj: seq<Residue>, dir: seq<bool>, m: Lookup)
    requires |rj| == |ri| && |dir| == |ri|
  {
    && (forall i :: 0 <= i < |ri| ==> Get(m, ri[i], rj[i]).Some?)
    && (forall i :: 0 <= i < |ri| && !dir[i] ==> Get(m, rj[i], ri[i]).Some?)
  }

  /** The ordered set holds the canonical pair of some record, and only those,
      and has an element equivalent to the canonical pair of every record. */
  ghost predicate SetExact(ri: seq<Residue>, rj: seq<Residue>, dir: seq<bool>, oc: seq<ResiduePair>)
    requires |rj| == |ri| && |dir| == |ri|
  {
    && (forall i :: 0 <= i < |ri| ==> HasKey(oc, Key(Canon(ri, rj, dir, i))))
    && (forall q :: q in oc ==> exists i :: 0 <= i < |ri| && q == Canon(ri, rj, dir, i))
  }

  /** The consistency of a contact list's stores. */
  ghost predicate Consistent(ri: seq<Residue>, rj: seq<Residue>, dir: seq<bool>, m: Lookup, oc: seq<ResiduePair>)
  {
    && |rj| == |ri| && |dir| == |ri|
    && Ordered(oc)
    && MapSound(ri, rj, dir, m)
    && MapComplete(ri, rj, dir, m)
    && SetExact(ri, rj, dir, oc)
  }

  /** The map writes of addContact for a record n connecting a to b. */
  ghost predicate AddedEntries(m: Lookup, m': Lookup, a: Residue, b: Residue, directional: bool, n: int)
  {
    forall x, y :: Get(m', x, y) ==
                   if (x == a && y == b) || (!directional && x == b && y == a) then Some(n)
                   else Get(m, x, y)
  }

  lemma AppendMapSound(ri: seq<Residue>, rj: seq<Residue>, dir: seq<bool>, m: Lookup,
                       a: Residue, b: Residue, directional: bool, m': Lookup)
    requires |rj| == |ri| && |dir| == |ri|
    requires MapSound(ri, rj, dir, m) && AddedEntries(m, m', a, b, directional, |ri|)
    ensures MapSound(ri + [a], rj + [b], dir + [directional], m')
  {
    var ri', rj', dir' := ri + [a], rj + [b], dir + [directional];
    forall x, y | Get(m', x, y).Some?
      ensures Links(ri', rj', dir', Get(m', x, y).value, x, y)
    {
      if !((x == a && y == b) || (!directional && x == b && y == a)) {
        var v := Get(m, x, y).value;
        assert Links(ri, rj, dir, v, x, y);
        assert ri'[v] == ri[v] && rj'[v] == rj[v] && dir'[v] == dir[v];
      }
    }
  }

  lemma AppendMapComplete(ri: seq<Residue>, rj: seq<Residue>, dir: seq<bool>, m: Lookup,
                          a: Residue, b: Residue, directional: bool, m': Lookup)
    requires |rj| == |ri| && |dir| == |ri|
    requires MapComplete(ri, rj, dir, m) && AddedEntries(m, m', a, b, directional, |ri|)
    ensures MapComplete(ri + [a], rj + [b], dir + [directional], m')
  {
    var ri', rj', dir' := ri + [a], rj + [b], dir + [directional];
    forall i | 0 <= i < |ri'|
      ensures Get(m', ri'[i], rj'[i]).Some?
    {
      if i < |ri| {
        assert Get(m, ri[i], rj[i]).Some?;
      }
    }
    forall i | 0 <= i < |ri'| && !dir'[i]
      ensures Get(m', rj'[i], ri'[i]).Some?
    {
      if i < |ri| {
        assert Get(m, rj[i], ri[i]).Some?;
      }
    }
  }

  lemma AppendSetExact(ri: seq<Residue>, rj: seq<Residue>, dir: seq<bool>, oc: seq<ResiduePair>,
                       a: Residue, b: Residue, directional: bool)
    requires |rj| == |ri| && |dir| == |ri| && Ordered(oc)
    requires SetExact(ri, rj, dir, oc)
    ensures SetExact(ri + [a], rj + [b], dir + [directional], Insert(oc, CanonPair(a, b, directional)))
  {
    var ri', rj', dir', oc' := ri + [a], rj + [b], dir + [directional], Insert(oc, CanonPair(a, b, directional));
    var n := |ri|;
    assert forall i :: 0 <= i < n ==> Canon(ri', rj', dir', i) == Canon(ri, rj, dir, i);
    assert Canon(ri', rj', dir', n) == CanonPair(a, b, directional);
    forall i | 0 <= i < |ri'|
      ensures HasKey(oc', Key(Canon(ri', rj', dir', i)))
    {
      if i < n {
        assert HasKey(oc, Key(Canon(ri, rj, dir, i)));
      }
    }
    forall q | q in oc'
      ensures exists i :: 0 <= i < |ri'| && q == Canon(ri', rj', dir', i)
    {
      if q in oc {
        var i :| 0 <= i < n && q == Canon(ri, rj, dir, i);
        assert q == Canon(ri', rj', dir', i);
      } else {
        assert q == Canon(ri', rj', dir', n);
      }
    }
  }

  /** Appending a record and making the writes of addContact keeps the stores
      consistent. */
  lemma AppendConsistent(ri: seq<Residue>, rj: seq<Residue>, dir: seq<bool>, m: Lookup, oc: seq<ResiduePair>,
                         a: Residue, b: Residue, directional: bool, m': Lookup)
    requires Consistent(ri, rj, dir, m, oc)
    requires AddedEntries(m, m', a, b, directional, |ri|)
    ensures Consistent(ri + [a], rj + [b], dir + [directional], m', Insert(oc, CanonPair(a, b, directional)))
  {
    AppendMapSound(ri, rj, dir, m, a, b, directional, m');
    AppendMapComplete(ri, rj, dir, m, a, b, directional, m');
    AppendSetExact(ri, rj, dir, oc, a, b, directional);
  }

  /** The facts about p and inv that the rearrangement needs. */
  ghost predicate Inverses(p: seq<int>, inv: seq<int>, n: nat)
  {
    && |p| == n && |inv| == n
    && (forall t :: 0 <= t < n ==> 0 <= p[t] < n && inv[p[t]] == t)
    && (forall v :: 0 <= v < n ==> 0 <= inv[v] < n && p[inv[v]] == v)
  }

  lemma PermutedMapSound(ri: seq<Residue>, rj: seq<Residue>, dir: seq<bool>, m: Lookup, p: seq<int>, inv: seq<int>)
    requires |rj| == |ri| && |dir| == |ri| && Inverses(p, inv, |ri|)
    requires MapSound(ri, rj, dir, m)
    ensures MapSound(Permute(ri, p), Permute(rj, p), Permute(dir, p), Remap(m, inv))
  {
    var ri', rj', dir', m' := Permute(ri, p), Permute(rj, p), Permute(dir, p), Remap(m, inv);
    forall x, y | Get(m', x, y).Some?
      ensures Links(ri', rj', dir', Get(m', x, y).value, x, y)
    {
      var v := Get(m, x, y).value;
      assert Links(ri, rj, dir, v, x, y);
      assert p[inv[v]] == v;
    }
  }

  lemma PermutedMapComplete(ri: seq<Residue>, rj: seq<Residue>, dir: seq<bool>, m: Lookup, p: seq<int>, inv: seq<int>)
    requires |rj| == |ri| && |dir| == |ri| && Inverses(p, inv, |ri|)
    requires MapSound(ri, rj, dir, m) && MapComplete(ri, rj, dir, m)
    ensures MapComplete(Permute(ri, p), Permute(rj, p), Permute(dir, p), Remap(m, inv))
  {
    var ri', rj', dir', m' := Permute(ri, p), Permute(rj, p), Permute(dir, p), Remap(m, inv);
    forall i | 0 <= i < |ri'|
      ensures Get(m', ri'[i], rj'[i]).Some?
    {
      assert Get(m, ri[p[i]], rj[p[i]]).Some?;
    }
    forall i | 0 <= i < |ri'| && !dir'[i]
      ensures Get(m', rj'[i], ri'[i]).Some?
    {
      assert Get(m, rj[p[i]], ri[p[i]]).Some?;
    }
  }

  lemma PermutedSetExact(ri: seq<Residue>, rj: seq<Residue>, dir: seq<bool>, oc: seq<ResiduePair>, p: seq<int>, inv: seq<int>)
    requires |rj| == |ri| && |dir| == |ri| && Inverses(p, inv, |ri|)
    requires SetExact(ri, rj, dir, oc)
    ensures SetExact(Permute(ri, p), Permute(rj, p), Permute(dir, p), oc)
  {
    var ri', rj', dir' := Permute(ri, p), Permute(rj, p), Permute(dir, p);
    forall i | 0 <= i < |ri'|
      ensures HasKey(oc, Key(Canon(ri', rj', dir', i)))
    {
      assert Canon(ri', rj', dir', i) == Canon(ri, rj, dir, p[i]);
    }
    forall q | q in oc
      ensures exists i :: 0 <= i < |ri'| && q == Canon(ri', rj', dir', i)
    {
      var i :| 0 <= i < |ri| && q == Canon(ri, rj, dir, i);
      assert Canon(ri', rj', dir', inv[i]) == Canon(ri, rj, dir, i);
    }
  }

  /** Rearranging the records by a permutation and remapping the lookup map
      through its inverse keeps the stores consistent. */
  lemma PermutedConsistent(ri: seq<Residue>, rj: seq<Residue>, dir: seq<bool>, m: Lookup, oc: seq<ResiduePair>,
                           p: seq<int>, inv: seq<int>)
    requires Consistent(ri, rj, dir, m, oc) && Inverses(p, inv, |ri|)
    ensures Consistent(Permute(ri, p), Permute(rj, p), Permute(dir, p), Remap(m, inv), oc)
  {
    PermutedMapSound(ri, rj, dir, m, p, inv);
    PermutedMapComplete(ri, rj, dir, m, p, inv);
    PermutedSetExact(ri, rj, dir, oc, p, inv);
  }

  /** Remapping through the inverse keeps every pair's entry present and
      pointing at a record with the same degree and annotation. */
  lemma PermutedLookup(m: Lookup, p: seq<int>, inv: seq<int>, degs: seq<real>, infs: seq<string>)
    requires Inverses(p, inv, |degs|) && |infs| == |degs|
    requires forall x, y :: Get(m, x, y).Some? ==> 0 <= Get(m, x, y).value < |degs|
    ensures forall x, y :: Get(Remap(m, inv), x, y).Some? <==> Get(m, x, y).Some?
    ensures forall x, y :: Get(m, x, y).Some? ==>
      && 0 <= Get(Remap(m, inv), x, y).value < |degs|
      && p[Get(Remap(m, inv), x, y).value] == Get(m, x, y).value
      && Permute(degs, p)[Get(Remap(m, inv), x, y).value] == degs[Get(m, x, y).value]
      && Permute(infs, p)[Get(Remap(m, inv), x, y).value] == infs[Get(m, x, y).value]
  {
    forall x, y | Get(m, x, y).Some?
      ensures 0 <= Get(Remap(m, inv), x, y).value < |degs|
      ensures p[Get(Remap(m, inv), x, y).value] == Get(m, x, y).value
      ensures Permute(degs, p)[Get(Remap(m, inv), x, y).value] == degs[Get(m, x, y).value]
      ensures Permute(infs, p)[Get(Remap(m, inv), x, y).value] == infs[Get(m, x, y).value]
    {
      var v := Get(m, x, y).value;
      assert p[inv[v]] == v;
    }
  }

  /** The descending order of sortIndices(vec, true), with its inverse. */
  method DescendingOrder(vec: seq<real>) returns (p: seq<int>, inv: seq<int>)
    ensures MstUtils.IsPermutation(p, |vec|) && Inverses(p, inv, |vec|)
    ensures forall s, t :: 0 <= s < t < |vec| ==> vec[p[s]] >= vec[p[t]]
  {
    p := MstUtils.SortIndices(vec, true);
    inv := Inverse(p, |vec|);
  }

  class ContactList {
    var resi: seq<Residue>
    var resj: seq<Residue>
    var degrees: seq<real>
    var infos: seq<string>
    var inContact: Lookup
    var orderedContacts: seq<ResiduePair>
    /** Whether each record was added as directional; the C++ object does not
        keep this, but the lookup map and the ordered set depend on it. */
    ghost var directional: seq<bool>

    /** The lookup map has an entry inContact[a][b]. */
    predicate Linked(a: Residue, b: Residue)
      reads this
    {
      Get(inContact, a, b).Some?
    }

    /** The four parallel stores have one length and the lookup map and the
        ordered set are consistent with the records. */
    ghost predicate Valid()
      reads this
    {
      && |degrees| == |resi| && |infos| == |resi|
      && Consistent(resi, resj, directional, inContact, orderedContacts)
    }

    constructor()
      ensures Valid()
      ensures resi == [] && resj == [] && degrees == [] && infos == []
      ensures inContact == map[] && orderedContacts == []
    {
      resi, resj, degrees, infos := [], [], [], [];
      inContact, orderedContacts := map[], [];
      directional := [];
    }

    /** The copy constructor: all six stores equal those of other. */
    constructor Copy(other: ContactList)
      requires other.Valid()
      ensures Valid()
      ensures resi == other.resi && resj == other.resj
      ensures degrees == other.degrees && infos == other.infos
      ensures inContact == other.inContact && orderedContacts == other.orderedContacts
      ensures directional == other.directional
    {
      resi := other.resi;
      resj := other.resj;
      degrees := other.degrees;
      infos := other.infos;
      inContact := other.inContact;
      orderedContacts := other.orderedContacts;
      directional := other.directional;
    }

    /** size: the common length of the four parallel stores. */
    function Size(): (r: nat)
      reads this
      requires Valid()
      ensures r == |resi| && r == |resj| && r == |degrees| && r == |infos|
    {
      |resi|
    }

    function ResidueA(i: int): Residue
      reads this
      requires 0 <= i < |resi|
    {
      resi[i]
    }

    function ResidueB(i: int): Residue
      reads this
      requires 0 <= i < |resj|
    {
      resj[i]
    }

    function SrcResidue(i: int): Residue
      reads this
      requires 0 <= i < |resi|
    {
      resi[i]
    }

    function DstResidue(i: int): Residue
      reads this
      requires 0 <= i < |resj|
    {
      resj[i]
    }

    function SrcResidues(): seq<Residue>
      reads this
    {
      resi
    }

    function DestResidues(): seq<Residue>
      reads this
    {
      resj
    }

    function DegreeAt(i: int): real
      reads this
      requires 0 <= i < |degrees|
    {
      degrees[i]
    }

    function Info(i: int): string
      reads this
      requires 0 <= i < |infos|
    {
      infos[i]
    }

    /** addContact: append one record; point inContact[a][b] (and
        inContact[b][a] when undirected) at it, overwriting an earlier entry;
        insert its canonical pair into the ordered set. */
    method AddContact(a: Residue, b: Residue, d: real, s: string, dir: bool)
      requires Valid()
      modifies this
      ensures Valid()
      ensures resi == old(resi) + [a] && resj == old(resj) + [b]
      ensures degrees == old(degrees) + [d] && infos == old(infos) + [s]
      ensures directional == old(directional) + [dir]
      ensures AddedEntries(old(inContact), inContact, a, b, dir, |old(resi)|)
      ensures orderedContacts == Insert(old(orderedContacts), CanonPair(a, b, dir))
      ensures SrcResidue(|old(resi)|) == a && DstResidue(|old(resi)|) == b
      ensures DegreeAt(|old(resi)|) == d && Info(|old(resi)|) == s
    {
      var n := |resi|;
      var m := Put(inContact, a, b, n);
      if !dir {
        m := Put(m, b, a, n);
      }
      var oc := Insert(orderedContacts, CanonPair(a, b, dir));
      AppendConsistent(resi, resj, directional, inContact, orderedContacts, a, b, dir, m);
      resi, resj, degrees, infos := resi + [a], resj + [b], degrees + [d], infos + [s];
      inContact, orderedContacts := m, oc;
      directional := directional + [dir];
    }

    /** areInContact: the lookup map has an entry for (A, B) or for (B, A);
        that is, some record connects A and B in one orientation or the other. */
    function AreInContact(A: Residue, B: Residue): (r: bool)
      reads this
      requires Valid()
      ensures r <==> exists i :: 0 <= i < |resi| && ((resi[i] == A && resj[i] == B) || (resi[i] == B && resj[i] == A))
    {
      var r := Linked(A, B) || Linked(B, A);
      assert r ==> exists i :: 0 <= i < |resi| && ((resi[i] == A && resj[i] == B) || (resi[i] == B && resj[i] == A)) by {
        if Linked(A, B) {
          assert Links(resi, resj, directional, Get(inContact, A, B).value, A, B);
        } else if Linked(B, A) {
          assert Links(resi, resj, directional, Get(inContact, B, A).value, B, A);
        }
      }
      r
    }

    /** degree(resi, resj): the degree of the record the lookup map names for
        the pair; a pair without an entry is the caller's error. */
    function Degree(A: Residue, B: Residue): (r: real)
      reads this
      requires Valid() && Linked(A, B)
      ensures exists v :: Links(resi, resj, directional, v, A, B) && r == degrees[v]
    {
      var v := Get(inContact, A, B).value;
      assert Links(resi, resj, directional, v, A, B);
      degrees[v]
    }

    /** The annotation of the record the lookup map names for the pair. */
    ghost function InfoOf(A: Residue, B: Residue): (r: string)
      reads this
      requires Valid() && Linked(A, B)
      ensures exists v :: Links(resi, resj, directional, v, A, B) && r == infos[v]
    {
      var v := Get(inContact, A, B).value;
      assert Links(resi, resj, directional, v, A, B);
      infos[v]
    }

    /** getOrderedContacts: the canonical pairs in contComp order, one per
        pair of residue indices, covering every record. */
    function GetOrderedContacts(): (r: seq<ResiduePair>)
      reads this
      requires Valid()
      ensures Ordered(r)
      ensures forall s, t :: 0 <= s < t < |r| ==> Key(r[s]) != Key(r[t])
      ensures forall i :: 0 <= i < |resi| ==> HasKey(r, Key(Canon(resi, resj, directional, i)))
      ensures forall q :: q in r ==> exists i :: 0 <= i < |resi| && q == Canon(resi, resj, directional, i)
    {
      OrderedKeysDistinct(orderedContacts);
      orderedContacts
    }

    /** sortByDegree: one permutation, sorting the degrees from highest to
        lowest, applied to every parallel store; the lookup map follows the
        records to their new positions, so every pair keeps its degree and
        annotation; the ordered set is unaffected. */
    method SortByDegree() returns (ghost perm: seq<int>)
      requires Valid()
      modifies this
      ensures Valid()
      ensures MstUtils.IsPermutation(perm, |old(resi)|) && |perm| == |old(resi)| == |resi|
      ensures forall t :: 0 <= t < |perm| ==> 0 <= perm[t] < |perm|
      ensures forall t :: 0 <= t < |perm| ==>
        && resi[t] == old(resi)[perm[t]] && resj[t] == old(resj)[perm[t]]
        && degrees[t] == old(degrees)[perm[t]] && infos[t] == old(infos)[perm[t]]
        && directional[t] == old(directional)[perm[t]]
      ensures forall s, t :: 0 <= s < t < |degrees| ==> degrees[s] >= degrees[t]
      ensures forall x, y :: Linked(x, y) <==> old(Linked(x, y))
      ensures forall x, y :: Linked(x, y) ==>
        0 <= Get(inContact, x, y).value < |perm| && perm[Get(inContact, x, y).value] == Get(old(inContact), x, y).value
      ensures forall x, y :: old(Linked(x, y)) ==> Degree(x, y) == old(Degree(x, y)) && InfoOf(x, y) == old(InfoOf(x, y))
      ensures orderedContacts == old(orderedContacts)
    {
      var p, inv := DescendingOrder(degrees);
      var ri, rj, ds, ins := Permute(resi, p), Permute(resj, p), Permute(degrees, p), Permute(infos, p);
      ghost var dr := Permute(directional, p);
      var m := Remap(inContact, inv);
      PermutedConsistent(resi, resj, directional, inContact, orderedContacts, p, inv);
      PermutedLookup(inContact, p, inv, degrees, infos);
      resi, resj, degrees, infos, inContact := ri, rj, ds, ins, m;
      directional := dr;
      perm := p;
    }
  }

  /** The inline state of ConFind that its setters touch: the freedom
      parameters, the freedom cache and the collision-probability
      write-window flags. */
  class ConFind {
    var loCollProbCut: real
    var hiCollProbCut: real
    var freedomType: int
    var freedom: map<Residue, real>
    var updateCollProb: map<Residue, bool>

    constructor(lo: real, hi: real, typ: int)
      ensures loCollProbCut == lo && hiCollProbCut == hi && freedomType == typ
      ensures freedom == map[] && updateCollProb == map[]
    {
      loCollProbCut, hiCollProbCut, freedomType := lo, hi, typ;
      freedom, updateCollProb := map[], map[];
    }

    /** The collision-probability table of res may be written now. */
    predicate Updating(res: Residue)
      reads this
    {
      res in updateCollProb && updateCollProb[res]
    }

    /** setFreedomParams: sets the two cutoffs and the formula switch and
        nothing else. */
    method SetFreedomParams(lo: real, hi: real, typ: int)
      modifies this`loCollProbCut, this`hiCollProbCut, this`freedomType
      ensures loCollProbCut == lo && hiCollProbCut == hi && freedomType == typ
    {
      loCollProbCut := lo;
      hiCollProbCut := hi;
      freedomType := typ;
    }

    /** clearFreedom: empties the freedom cache and nothing else. */
    method ClearFreedom()
      modifies this`freedom
      ensures freedom == map[]
    {
      freedom := map[];
    }

    /** collProbUpdateOn: opens the write window of res only. */
    method CollProbUpdateOn(res: Residue)
      modifies this`updateCollProb
      ensures updateCollProb == old(updateCollProb)[res := true]
      ensures Updating(res)
      ensures forall r :: r != res ==> (Updating(r) <==> old(Updating(r)))
    {
      updateCollProb := updateCollProb[res := true];
    }

    /** collProbUpdateOff: closes the write window of res only. */
    method CollProbUpdateOff(res: Residue)
      modifies this`updateCollProb
      ensures updateCollProb == old(updateCollProb)[res := false]
      ensures !Updating(res)
      ensures forall r :: r != res ==> (Updating(r) <==> old(Updating(r)))
    {
      updateCollProb := updateCollProb[res := false];
    }
  }
}
