/** Residues as the contact list sees them, and the ordered set of residue
    pairs behind contactList::orderedContacts: a std::set whose comparator,
    contComp, orders pairs by the residue index of the first residue and then
    by that of the second. */
module ContactOrder {

  /** A residue is an identity (the pointer the C++ code keys its maps by)
      carrying the integer that getResidueIndex reports. */
  datatype Residue = Residue(id: int, residueIndex: int)

  type ResiduePair = (Residue, Residue)

  /** The pair of integers contComp actually compares. */
  function Key(p: ResiduePair): (int, int)
  {
    (p.0.residueIndex, p.1.residueIndex)
  }

  /** contComp: the first residues' indices decide, unless they are equal, in
      which case the second residues' indices do. */
  predicate ContComp(lhs: ResiduePair, rhs: ResiduePair)
  {
    var lhsI := lhs.0.residueIndex;
    var rhsI := rhs.0.residueIndex;
    if lhsI == rhsI then lhs.1.residueIndex < rhs.1.residueIndex else lhsI < rhsI
  }

  /** contComp is a strict weak ordering, as std::set requires, and two pairs
      are equivalent under it exactly when their residue indices agree. */
  lemma ContCompIsStrictWeakOrder(p: ResiduePair, q: ResiduePair, r: ResiduePair)
    ensures !ContComp(p, p)
    ensures ContComp(p, q) ==> !ContComp(q, p)
    ensures ContComp(p, q) && ContComp(q, r) ==> ContComp(p, r)
    ensures !ContComp(p, q) && !ContComp(q, p) <==> Key(p) == Key(q)
  {
  }

  /** The sequence in which a std::set with comparator contComp enumerates
      its elements: strictly increasing. */
  predicate Ordered(s: seq<ResiduePair>)
  {
    forall a, b :: 0 <= a < b < |s| ==> ContComp(s[a], s[b])
  }

  /** Some element of s is equivalent to a pair with residue indices k. */
  predicate HasKey(s: seq<ResiduePair>, k: (int, int))
  {
    exists a :: 0 <= a < |s| && Key(s[a]) == k
  }

  /** An ordered set holds at most one pair per pair of residue indices. */
  lemma OrderedKeysDistinct(s: seq<ResiduePair>)
    requires Ordered(s)
    ensures forall a, b :: 0 <= a < b < |s| ==> Key(s[a]) != Key(s[b])
  {
    forall a, b | 0 <= a < b < |s|
      ensures Key(s[a]) != Key(s[b])
    {
      ContCompIsStrictWeakOrder(s[a], s[b], s[b]);
    }
  }

  /** std::set::insert with comparator contComp: p goes into its place in the
      order unless an equivalent pair is already present, in which case the
      set is left as it was. */
  function Insert(s: seq<ResiduePair>, p: ResiduePair): (r: seq<ResiduePair>)
    requires Ordered(s)
    ensures Ordered(r)
    ensures forall q :: q in r <==> q in s || (q == p && !HasKey(s, Key(p)))
    ensures forall k :: HasKey(r, k) <==> HasKey(s, k) || k == Key(p)
    ensures HasKey(s, Key(p)) ==> r == s
    ensures !HasKey(s, Key(p)) ==> |r| == |s| + 1
    decreases |s|
  {
    if s == [] then
      assert Key([p][0]) == Key(p);
      [p]
    else if ContComp(p, s[0]) then
      InsertFront(s, p);
      [p] + s
    else if ContComp(s[0], p) then
      var t := Insert(s[1..], p);
      InsertRest(s, p, t);
      [s[0]] + t
    else
      assert Key(s[0]) == Key(p);
      s
  }

  /** Inserting below the least element puts p in front. */
  lemma InsertFront(s: seq<ResiduePair>, p: ResiduePair)
    requires Ordered(s) && s != [] && ContComp(p, s[0])
    ensures Ordered([p] + s)
    ensures !HasKey(s, Key(p))
    ensures forall k :: HasKey([p] + s, k) <==> HasKey(s, k) || k == Key(p)
  {
    var r := [p] + s;
    forall a, b | 0 <= a < b < |r|
      ensures ContComp(r[a], r[b])
    {
      if a == 0 && b > 1 {
        ContCompIsStrictWeakOrder(p, s[0], s[b - 1]);
      }
    }
    forall a | 0 <= a < |s|
      ensures Key(s[a]) != Key(p)
    {
      if a > 0 {
        ContCompIsStrictWeakOrder(p, s[0], s[a]);
      }
    }
    forall k
      ensures HasKey(r, k) <==> HasKey(s, k) || k == Key(p)
    {
      if HasKey(r, k) {
        var a :| 0 <= a < |r| && Key(r[a]) == k;
        if a > 0 {
          assert Key(s[a - 1]) == k;
        }
      }
      if HasKey(s, k) {
        var a :| 0 <= a < |s| && Key(s[a]) == k;
        assert r[a + 1] == s[a];
      }
      assert r[0] == p;
    }
  }

  /** Inserting above the least element keeps it in front of the rest. */
  lemma InsertRest(s: seq<ResiduePair>, p: ResiduePair, t: seq<ResiduePair>)
    requires Ordered(s) && s != [] && ContComp(s[0], p)
    requires Ordered(t)
    requires forall q :: q in t <==> q in s[1..] || (q == p && !HasKey(s[1..], Key(p)))
    requires forall k :: HasKey(t, k) <==> HasKey(s[1..], k) || k == Key(p)
    requires HasKey(s[1..], Key(p)) ==> t == s[1..]
    requires !HasKey(s[1..], Key(p)) ==> |t| == |s| - 1 + 1
    ensures Ordered([s[0]] + t)
    ensures HasKey(s, Key(p)) <==> HasKey(s[1..], Key(p))
    ensures forall q :: q in [s[0]] + t <==> q in s || (q == p && !HasKey(s, Key(p)))
    ensures forall k :: HasKey([s[0]] + t, k) <==> HasKey(s, k) || k == Key(p)
    ensures HasKey(s, Key(p)) ==> [s[0]] + t == s
    ensures !HasKey(s, Key(p)) ==> |[s[0]] + t| == |s| + 1
  {
    var rest := s[1..];
    assert s == [s[0]] + rest;
    var r := [s[0]] + t;
    forall b | 0 <= b < |t|
      ensures ContComp(s[0], t[b])
    {
      assert t[b] in t;
      if t[b] != p {
        var c :| 0 <= c < |rest| && rest[c] == t[b];
        assert s[c + 1] == t[b];
      }
    }
    forall a, b | 0 <= a < b < |r|
      ensures ContComp(r[a], r[b])
    {
      if a > 0 {
        assert r[a] == t[a - 1] && r[b] == t[b - 1];
      }
    }
    assert Key(s[0]) != Key(p);
    forall k
      ensures HasKey(s, k) <==> HasKey(rest, k) || k == Key(s[0])
    {
      if HasKey(s, k) {
        var a :| 0 <= a < |s| && Key(s[a]) == k;
        if a > 0 {
          assert Key(rest[a - 1]) == k;
        }
      }
      if HasKey(rest, k) {
        var a :| 0 <= a < |rest| && Key(rest[a]) == k;
        assert s[a + 1] == rest[a];
      }
    }
    forall k
      ensures HasKey(r, k) <==> HasKey(t, k) || k == Key(s[0])
    {
      if HasKey(r, k) {
        var a :| 0 <= a < |r| && Key(r[a]) == k;
        if a > 0 {
          assert Key(t[a - 1]) == k;
        }
      }
      if HasKey(t, k) {
        var a :| 0 <= a < |t| && Key(t[a]) == k;
        assert r[a + 1] == t[a];
      }
      assert r[0] == s[0];
    }
  }

  /** Inserting the same pair twice leaves the set as one insertion did. */
  lemma InsertIdempotent(s: seq<ResiduePair>, p: ResiduePair)
    requires Ordered(s)
    ensures Insert(Insert(s, p), p) == Insert(s, p)
  {
    var r := Insert(s, p);
    assert HasKey(r, Key(p));
  }
}
