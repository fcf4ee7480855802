/** `std::map<std::string, size_t>`, the type of the column-name index.

    Its iteration order is observable (header completion walks it, and
    the frame's row count reads its first entry), so it is modelled as an
    association list kept strictly sorted by key. */
module OrderedMap {
  import opened Bytes
  import opened Results

  type Entries = seq<(Bytes, nat)>

  /** Keys strictly increasing, hence distinct. */
  ghost predicate Sorted(e: Entries)
  {
    forall i, j | 0 <= i < j < |e| :: LexLess(e[i].0, e[j].0)
  }

  function Lookup(e: Entries, k: Bytes): (r: Option<nat>)
  {
    if e == [] then None
    else if e[0].0 == k then Some(e[0].1)
    else Lookup(e[1..], k)
  }

  /** `find` succeeds exactly when some entry holds the key. */
  lemma {:induction false} LookupFinds(e: Entries, k: Bytes)
    ensures Lookup(e, k).Some? <==> exists i | 0 <= i < |e| :: e[i].0 == k
  {
    if e != [] && e[0].0 != k {
      LookupFinds(e[1..], k);
      assert forall i | 0 <= i < |e[1..]| :: e[1..][i] == e[i + 1];
    }
  }

  /** In a sorted list the value of a key is the one its entry holds. */
  lemma LookupSorted(e: Entries, i: nat)
    requires Sorted(e) && i < |e|
    ensures Lookup(e, e[i].0) == Some(e[i].1)
  {
    if i > 0 {
      assert LexLess(e[0].0, e[i].0);
      LexIrreflexive(e[0].0);
      assert e[1..][i - 1] == e[i];
      LookupSorted(e[1..], i - 1);
    }
  }

  /** `map::insert(make_pair(k, v))`: a key already present keeps its value. */
  function Insert(e: Entries, k: Bytes, v: nat): (r: Entries)
    requires Sorted(e)
    ensures Sorted(r)
    ensures Lookup(r, k) == if Lookup(e, k).Some? then Lookup(e, k) else Some(v)
    ensures forall k' | k' != k :: Lookup(r, k') == Lookup(e, k')
    ensures |r| == if Lookup(e, k).Some? then |e| else |e| + 1
    decreases |e|
  {
    if e == [] then [(k, v)]
    else if e[0].0 == k then e
    else if LexLess(k, e[0].0) then
      var r := [(k, v)] + e;
      assert r[1..] == e;
      forall j | 1 <= j < |r| ensures LexLess(k, r[j].0) {
        if j > 1 { LexTransitive(k, e[0].0, r[j].0); }
      }
      NotInAbove(e, k);
      r
    else
      LexTotal(k, e[0].0);
      var tail := Insert(e[1..], k, v);
      var r := [e[0]] + tail;
      assert r[1..] == tail;
      forall j | 1 <= j < |r| ensures LexLess(e[0].0, r[j].0) {
        var kj := r[j].0;
        if kj != k {
          assert Lookup(tail, kj).Some? by { LookupFinds(tail, kj); assert tail[j - 1] == r[j]; }
          assert Lookup(e[1..], kj).Some?;
          LookupFinds(e[1..], kj);
          var i :| 0 <= i < |e[1..]| && e[1..][i].0 == kj;
          assert e[i + 1].0 == kj;
        }
      }
      r
  }

  /** A key below the smallest key is absent. */
  lemma NotInAbove(e: Entries, k: Bytes)
    requires Sorted(e) && e != [] && LexLess(k, e[0].0)
    ensures Lookup(e, k).None?
  {
    if Lookup(e, k).Some? {
      LookupFinds(e, k);
      var i :| 0 <= i < |e| && e[i].0 == k;
      if i == 0 {
        LexIrreflexive(k);
      } else {
        LexAsymmetric(k, e[0].0);
      }
    }
  }

  /** `map::operator[]`: the value of `k`, inserting `(k, dflt)` first when it is missing. */
  function LookupOrInsert(e: Entries, k: Bytes, dflt: nat): (r: (Entries, nat))
    requires Sorted(e)
    ensures Sorted(r.0) && Lookup(r.0, k) == Some(r.1)
    ensures Lookup(e, k).Some? ==> r == (e, Lookup(e, k).value)
    ensures Lookup(e, k).None? ==> r.1 == dflt && forall k' | k' != k :: Lookup(r.0, k') == Lookup(e, k')
  {
    match Lookup(e, k)
    case Some(v) => (e, v)
    case None => (Insert(e, k, dflt), dflt)
  }

  /** The entries after inserting `names[j] -> j` for `j` from `i` up, in
      the order of the loops of `read_column_headers`, `set_index` and
      `add_column`. */
  function InsertFrom(e: Entries, names: seq<Bytes>, i: nat): (r: Entries)
    requires Sorted(e) && i <= |names|
    ensures Sorted(r)
    decreases |names| - i
  {
    if i == |names| then e
    else InsertFrom(Insert(e, names[i], i), names, i + 1)
  }

  function InsertAll(e: Entries, names: seq<Bytes>): (r: Entries)
    requires Sorted(e)
    ensures Sorted(r)
  {
    InsertFrom(e, names, 0)
  }

  ghost predicate Distinct(names: seq<Bytes>)
  {
    forall i, j | 0 <= i < j < |names| :: names[i] != names[j]
  }

  /** Inserting the positions of pairwise distinct names (absent before) maps each name to its position. */
  lemma InsertAllDistinct(e: Entries, names: seq<Bytes>)
    requires Sorted(e) && Distinct(names)
    requires forall i | 0 <= i < |names| :: Lookup(e, names[i]).None?
    ensures |InsertAll(e, names)| == |e| + |names|
    ensures forall i | 0 <= i < |names| :: Lookup(InsertAll(e, names), names[i]) == Some(i)
    ensures forall k | k !in names :: Lookup(InsertAll(e, names), k) == Lookup(e, k)
  {
    InsertFromDistinctSize(e, names, 0);
    forall i | 0 <= i < |names| ensures Lookup(InsertAll(e, names), names[i]) == Some(i) {
      InsertFromFinds(e, names, 0, i);
    }
    forall k | k !in names ensures Lookup(InsertAll(e, names), k) == Lookup(e, k) {
      assert names[0..] == names;
      InsertFromOthers(e, names, 0, k);
    }
  }

  /** Inserting `names[i]` leaves the later, different names absent. */
  lemma AbsentAfterInsert(e: Entries, names: seq<Bytes>, i: nat)
    requires Sorted(e) && Distinct(names) && i < |names|
    requires forall j | i <= j < |names| :: Lookup(e, names[j]).None?
    ensures forall j | i + 1 <= j < |names| :: Lookup(Insert(e, names[i], i), names[j]).None?
  {
    forall j | i + 1 <= j < |names| ensures Lookup(Insert(e, names[i], i), names[j]).None? {
      assert names[i] != names[j];
    }
  }

  lemma {:induction false} InsertFromDistinctSize(e: Entries, names: seq<Bytes>, i: nat)
    requires Sorted(e) && Distinct(names) && i <= |names|
    requires forall j | i <= j < |names| :: Lookup(e, names[j]).None?
    ensures |InsertFrom(e, names, i)| == |e| + |names| - i
    decreases |names| - i
  {
    if i < |names| {
      AbsentAfterInsert(e, names, i);
      InsertFromDistinctSize(Insert(e, names[i], i), names, i + 1);
    }
  }

  lemma {:induction false} InsertFromFinds(e: Entries, names: seq<Bytes>, i: nat, j: nat)
    requires Sorted(e) && Distinct(names) && i <= j < |names|
    requires forall j' | i <= j' < |names| :: Lookup(e, names[j']).None?
    ensures Lookup(InsertFrom(e, names, i), names[j]) == Some(j)
    decreases |names| - i
  {
    var e' := Insert(e, names[i], i);
    if i == j {
      var tail := names[i + 1..];
      forall j' | 0 <= j' < |tail| ensures tail[j'] != names[i] {
        assert tail[j'] == names[i + 1 + j'];
      }
      InsertFromOthers(e', names, i + 1, names[i]);
    } else {
      AbsentAfterInsert(e, names, i);
      InsertFromFinds(e', names, i + 1, j);
    }
  }

  /** A key none of the remaining names equals keeps its lookup. */
  lemma {:induction false} InsertFromOthers(e: Entries, names: seq<Bytes>, i: nat, k: Bytes)
    requires Sorted(e) && i <= |names| && k !in names[i..]
    ensures Lookup(InsertFrom(e, names, i), k) == Lookup(e, k)
    decreases |names| - i
  {
    if i < |names| {
      assert names[i..][0] == names[i];
      assert names[i + 1..] == names[i..][1..];
      InsertFromOthers(Insert(e, names[i], i), names, i + 1, k);
    }
  }

  /** With a repeated name some insertion keeps an existing key, so fewer entries than names result. */
  lemma InsertAllSize(e: Entries, names: seq<Bytes>)
    requires Sorted(e)
    ensures |InsertAll(e, names)| <= |e| + |names|
    ensures !Distinct(names) ==> |InsertAll(e, names)| < |e| + |names|
  {
    InsertFromBound(e, names, 0);
    if !Distinct(names) {
      var i, j :| 0 <= i < j < |names| && names[i] == names[j];
      InsertFromRepeat(e, names, 0, i, j);
    }
  }

  /** An insertion adds at most one entry, and none for a key already present. */
  lemma InsertSize(e: Entries, k: Bytes, v: nat)
    requires Sorted(e)
    ensures |Insert(e, k, v)| <= |e| + 1
    ensures Lookup(e, k).Some? ==> |Insert(e, k, v)| == |e|
  {
  }

  /** A key present before an insertion, or the key inserted, is present after it. */
  lemma InsertKeeps(e: Entries, k: Bytes, v: nat, k': Bytes)
    requires Sorted(e) && (k' == k || Lookup(e, k').Some?)
    ensures Lookup(Insert(e, k, v), k').Some?
  {
  }

  lemma {:induction false} InsertFromBound(e: Entries, names: seq<Bytes>, i: nat)
    requires Sorted(e) && i <= |names|
    ensures |InsertFrom(e, names, i)| <= |e| + |names| - i
    decreases |names| - i
  {
    if i < |names| {
      InsertSize(e, names[i], i);
      InsertFromBound(Insert(e, names[i], i), names, i + 1);
    }
  }

  /** A name still to be inserted that is already a key adds no entry. */
  lemma {:induction false} InsertFromPresent(e: Entries, names: seq<Bytes>, i: nat, j: nat)
    requires Sorted(e) && i <= j < |names| && Lookup(e, names[j]).Some?
    ensures |InsertFrom(e, names, i)| < |e| + |names| - i
    decreases |names| - i
  {
    var e' := Insert(e, names[i], i);
    InsertSize(e, names[i], i);
    if i == j {
      InsertFromBound(e', names, i + 1);
    } else {
      InsertKeeps(e, names[i], i, names[j]);
      InsertFromPresent(e', names, i + 1, j);
    }
  }

  lemma {:induction false} InsertFromRepeat(e: Entries, names: seq<Bytes>, i: nat, j1: nat, j2: nat)
    requires Sorted(e) && i <= j1 < j2 < |names| && names[j1] == names[j2]
    ensures |InsertFrom(e, names, i)| < |e| + |names| - i
    decreases |names| - i
  {
    var e' := Insert(e, names[i], i);
    InsertSize(e, names[i], i);
    if i == j1 {
      InsertKeeps(e, names[i], i, names[i]);
      InsertFromPresent(e', names, i + 1, j2);
    } else {
      InsertFromRepeat(e', names, i + 1, j1, j2);
    }
  }

  /** Every inserted name is a key afterwards. */
  lemma InsertAllKeys(e: Entries, names: seq<Bytes>, i: nat)
    requires Sorted(e) && i < |names|
    ensures Lookup(InsertAll(e, names), names[i]).Some?
  {
    InsertFromKeys(e, names, 0, i);
  }

  lemma {:induction false} InsertFromKeys(e: Entries, names: seq<Bytes>, i: nat, j: nat)
    requires Sorted(e) && i <= j < |names|
    ensures Lookup(InsertFrom(e, names, i), names[j]).Some?
    decreases |names| - i
  {
    var e' := Insert(e, names[i], i);
    if i == j {
      InsertKeeps(e, names[i], i, names[i]);
      InsertFromKeeps(e', names, i + 1, names[j]);
    } else {
      InsertFromKeys(e', names, i + 1, j);
    }
  }

  /** Later insertions never drop a key, nor change its value. */
  lemma {:induction false} InsertFromKeeps(e: Entries, names: seq<Bytes>, i: nat, k: Bytes)
    requires Sorted(e) && i <= |names| && Lookup(e, k).Some?
    ensures Lookup(InsertFrom(e, names, i), k) == Lookup(e, k)
    decreases |names| - i
  {
    if i < |names| {
      InsertFromKeeps(Insert(e, names[i], i), names, i + 1, k);
    }
  }

  /** A key absent before maps to the position of its first occurrence:
      `insert` never overwrites, so the first of a repeated name wins. */
  lemma {:induction false} InsertFromFirst(e: Entries, names: seq<Bytes>, i: nat, j: nat)
    requires Sorted(e) && i <= j < |names| && Lookup(e, names[j]).None?
    requires forall j' | i <= j' < j :: names[j'] != names[j]
    ensures Lookup(InsertFrom(e, names, i), names[j]) == Some(j)
    decreases |names| - i
  {
    var e' := Insert(e, names[i], i);
    if i == j {
      InsertFromKeeps(e', names, i + 1, names[j]);
    } else {
      InsertFromFirst(e', names, i + 1, j);
    }
  }

  lemma InsertAllFirst(e: Entries, names: seq<Bytes>, j: nat)
    requires Sorted(e) && j < |names| && Lookup(e, names[j]).None?
    requires forall j' | 0 <= j' < j :: names[j'] != names[j]
    ensures Lookup(InsertAll(e, names), names[j]) == Some(j)
  {
    InsertFromFirst(e, names, 0, j);
  }

  /** Inserting one more name at the end is one more `insert`. */
  lemma {:induction false} InsertFromSnoc(e: Entries, names: seq<Bytes>, n: Bytes, i: nat)
    requires Sorted(e) && i <= |names|
    ensures InsertFrom(e, names + [n], i) == Insert(InsertFrom(e, names, i), n, |names|)
    decreases |names| - i
  {
    if i < |names| {
      assert (names + [n])[i] == names[i];
      InsertFromSnoc(Insert(e, names[i], i), names, n, i + 1);
    } else {
      assert (names + [n])[i] == n;
    }
  }

  lemma InsertAllSnoc(e: Entries, names: seq<Bytes>, n: Bytes)
    requires Sorted(e)
    ensures InsertAll(e, names + [n]) == Insert(InsertAll(e, names), n, |names|)
  {
    InsertFromSnoc(e, names, n, 0);
  }

  /** A successful lookup comes from an entry holding the key and the value. */
  lemma {:induction false} LookupEntry(e: Entries, k: Bytes)
    requires Lookup(e, k).Some?
    ensures exists i | 0 <= i < |e| :: e[i] == (k, Lookup(e, k).value)
  {
    if e[0].0 != k {
      LookupEntry(e[1..], k);
      var i :| 0 <= i < |e[1..]| && e[1..][i] == (k, Lookup(e, k).value);
      assert e[i + 1] == e[1..][i];
    }
  }
}
