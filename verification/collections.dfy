/**
 * Two list and dict building patterns the EGI helpers use over and over:
 * appending an entry only for some items (`Keep`), and updating a dict one
 * key at a time, later keys overwriting earlier ones (`Update`, which is
 * also what `dict(pairs)` and a dict comprehension do).
 */
module Collections {
  import opened Wrappers

  /** The values of the `Some` entries, in order. */
  function Keep<T>(s: seq<Option<T>>): (r: seq<T>)
    ensures |r| <= |s|
  {
    if s == [] then [] else Keep(s[..|s| - 1]) + OptionToSeq(s[|s| - 1])
  }

  /** One more entry of a prefix: `Keep` takes in its value, if it has one. */
  lemma KeepPrefix<T>(s: seq<Option<T>>, i: nat)
    requires i < |s|
    ensures Keep(s[..i + 1]) == Keep(s[..i]) + OptionToSeq(s[i])
  {
    assert s[..i + 1][..i] == s[..i];
  }

  /** The positions of the `Some` entries, in order. */
  ghost function KeptAt<T>(s: seq<Option<T>>): seq<nat>
  {
    if s == [] then [] else KeptAt(s[..|s| - 1]) + (if s[|s| - 1].Some? then [|s| - 1] else [])
  }

  /**
   * `Keep` lists exactly the `Some` entries in their original order: entry j
   * comes from position KeptAt[j], the positions increase, and every `Some`
   * position is among them.
   */
  lemma {:induction false} KeepLayout<T>(s: seq<Option<T>>)
    ensures |KeptAt(s)| == |Keep(s)|
    ensures forall j :: 0 <= j < |KeptAt(s)| ==> KeptAt(s)[j] < |s| && s[KeptAt(s)[j]] == Some(Keep(s)[j])
    ensures forall j, k :: 0 <= j < k < |KeptAt(s)| ==> KeptAt(s)[j] < KeptAt(s)[k]
    ensures forall i :: 0 <= i < |s| ==> (s[i].Some? <==> i in KeptAt(s))
  {
    if s != [] {
      var init := s[..|s| - 1];
      KeepLayout(init);
      assert forall i :: 0 <= i < |init| ==> init[i] == s[i];
    }
  }

  /** `d.update({k: v})` for each pair, in order. */
  function Update<K, V>(m: map<K, V>, ps: seq<(K, V)>): map<K, V>
  {
    if ps == [] then m
    else Update(m, ps[..|ps| - 1])[ps[|ps| - 1].0 := ps[|ps| - 1].1]
  }

  /** The keys of a list of pairs. */
  ghost function KeysOf<K, V>(ps: seq<(K, V)>): set<K>
  {
    if ps == [] then {} else KeysOf(ps[..|ps| - 1]) + {ps[|ps| - 1].0}
  }

  /** The keys of a list of pairs are the first components at its positions. */
  lemma {:induction false} KeysOfAt<K, V>(ps: seq<(K, V)>)
    ensures KeysOf(ps) == set i | 0 <= i < |ps| :: ps[i].0
  {
    if ps != [] {
      var init := ps[..|ps| - 1];
      KeysOfAt(init);
      var last := |ps| - 1;
      forall k | k in KeysOf(ps) ensures k in set i | 0 <= i < |ps| :: ps[i].0 {
        if k in KeysOf(init) {
          var i :| 0 <= i < |init| && init[i].0 == k;
          assert ps[i].0 == k;
        } else {
          assert ps[last].0 == k;
        }
      }
      forall k | k in set i | 0 <= i < |ps| :: ps[i].0 ensures k in KeysOf(ps) {
        var i :| 0 <= i < |ps| && ps[i].0 == k;
        if i < last {
          assert init[i].0 == k;
        }
      }
    }
  }

  /** One more pair: updating with a longer prefix sets one more key. */
  lemma UpdatePrefix<K, V>(m: map<K, V>, ps: seq<(K, V)>, i: nat)
    requires i < |ps|
    ensures Update(m, ps[..i + 1]) == Update(m, ps[..i])[ps[i].0 := ps[i].1]
  {
    assert ps[..i + 1][..i] == ps[..i];
  }

  /** Updating adds exactly the keys of the pairs. */
  lemma {:induction false} UpdateKeys<K, V>(m: map<K, V>, ps: seq<(K, V)>)
    ensures Update(m, ps).Keys == m.Keys + KeysOf(ps)
  {
    if ps != [] {
      UpdateKeys(m, ps[..|ps| - 1]);
    }
  }

  /** No later pair has the key of pair i. */
  ghost predicate LastWithKey<K, V>(ps: seq<(K, V)>, i: nat)
    requires i < |ps|
  {
    forall j :: i < j < |ps| ==> ps[j].0 != ps[i].0
  }

  /**
   * After the updates a key holds the value of the LAST pair with that key,
   * and a key no pair mentions keeps its original value.
   */
  lemma {:induction false} UpdateLastWins<K, V>(m: map<K, V>, ps: seq<(K, V)>)
    ensures forall i :: 0 <= i < |ps| && LastWithKey(ps, i) ==>
      ps[i].0 in Update(m, ps) && Update(m, ps)[ps[i].0] == ps[i].1
    ensures forall k :: k in m && k !in KeysOf(ps) ==> k in Update(m, ps) && Update(m, ps)[k] == m[k]
  {
    if ps != [] {
      var init := ps[..|ps| - 1];
      UpdateLastWins(m, init);
      forall i | 0 <= i < |ps| - 1 && LastWithKey(ps, i)
        ensures ps[i].0 in Update(m, ps) && Update(m, ps)[ps[i].0] == ps[i].1
      {
        assert init[i] == ps[i];
        assert LastWithKey(init, i);
      }
    }
  }

  /** The items in order of first appearance, each once (`if x not in out: out.append(x)`). */
  function Distinct<T(==,!new)>(s: seq<T>): (r: seq<T>)
    ensures forall x :: x in r <==> x in s
    ensures forall j, k :: 0 <= j < k < |r| ==> r[j] != r[k]
  {
    if s == [] then []
    else
      var init := Distinct(s[..|s| - 1]);
      var x := s[|s| - 1];
      assert s == s[..|s| - 1] + [x];
      if x in init then init else init + [x]
  }

  /** Position of the first occurrence of x in s. */
  ghost function FirstAt<T>(s: seq<T>, x: T): (i: nat)
    requires x in s
    ensures i < |s| && s[i] == x && forall m :: 0 <= m < i ==> s[m] != x
  {
    if s[0] == x then 0 else assert x in s[1..]; 1 + FirstAt(s[1..], x)
  }

  /** `Distinct` lists the items in the order in which they first appear. */
  lemma {:induction false} DistinctOrder<T(!new)>(s: seq<T>)
    ensures forall j, k :: 0 <= j < k < |Distinct(s)| ==> FirstAt(s, Distinct(s)[j]) < FirstAt(s, Distinct(s)[k])
  {
    if s != [] {
      var init := s[..|s| - 1];
      DistinctOrder(init);
      var d := Distinct(s);
      var di := Distinct(init);
      forall y | y in init ensures FirstAt(s, y) == FirstAt(init, y) {
        FirstAtPrefix(init, s, y);
      }
      forall j, k | 0 <= j < k < |d| ensures FirstAt(s, d[j]) < FirstAt(s, d[k]) {
        if k < |di| {
          assert d[j] == di[j] && d[k] == di[k];
        } else {
          assert d[k] == s[|s| - 1] && d[k] !in init;
          assert d[j] == di[j];
        }
      }
    }
  }

  /** The first occurrence of an item of a prefix lies in that prefix. */
  lemma FirstAtPrefix<T>(p: seq<T>, s: seq<T>, x: T)
    requires x in p && |p| <= |s| && p == s[..|p|]
    ensures x in s && FirstAt(s, x) == FirstAt(p, x)
  {
    var i := FirstAt(p, x);
    assert s[i] == x;
  }

  /** The first failure in order, or all the values. */
  function Collect<T>(rs: seq<Result<T>>): Result<seq<T>>
  {
    if rs == [] then Ok([])
    else
      match Collect(rs[..|rs| - 1])
      case Err(e) => Err(e)
      case Ok(vs) => if rs[|rs| - 1].Err? then Err(rs[|rs| - 1].error) else Ok(vs + [rs[|rs| - 1].value])
  }

  /**
   * `Collect` succeeds exactly when every result does, with their values in
   * order; otherwise it fails with the error of the first failure.
   */
  lemma {:induction false} CollectCases<T>(rs: seq<Result<T>>)
    ensures Collect(rs).Ok? <==> forall i :: 0 <= i < |rs| ==> rs[i].Ok?
    ensures Collect(rs).Ok? ==> |Collect(rs).value| == |rs|
    ensures Collect(rs).Ok? ==> forall i :: 0 <= i < |rs| ==> Collect(rs).value[i] == rs[i].value
    ensures Collect(rs).Err? ==>
      exists i :: 0 <= i < |rs| && rs[i].Err? && Collect(rs).error == rs[i].error && forall m :: 0 <= m < i ==> rs[m].Ok?
  {
    if rs != [] {
      var init := rs[..|rs| - 1];
      CollectCases(init);
      assert forall i :: 0 <= i < |init| ==> init[i] == rs[i];
      if Collect(init).Err? {
        var i :| 0 <= i < |init| && init[i].Err? && Collect(init).error == init[i].error &&
          forall m :: 0 <= m < i ==> init[m].Ok?;
        assert rs[i].Err?;
      } else if rs[|rs| - 1].Err? {
        assert forall m :: 0 <= m < |rs| - 1 ==> rs[m].Ok?;
      }
    }
  }

  /**
   * `dict([...])` over results that all succeed: its keys are the pairs'
   * keys, and a key holds the value of the LAST pair with that key.
   */
  lemma CollectedDict<K, V>(rs: seq<Result<(K, V)>>)
    requires forall i :: 0 <= i < |rs| ==> rs[i].Ok?
    ensures Collect(rs).Ok?
    ensures Update(map[], Collect(rs).value).Keys == set i | 0 <= i < |rs| :: rs[i].value.0
    ensures forall i :: 0 <= i < |rs| && (forall j :: i < j < |rs| ==> rs[j].value.0 != rs[i].value.0) ==>
      rs[i].value.0 in Update(map[], Collect(rs).value) && Update(map[], Collect(rs).value)[rs[i].value.0] == rs[i].value.1
  {
    CollectCases(rs);
    var pairs := Collect(rs).value;
    UpdateKeys(map[], pairs);
    KeysOfAt(pairs);
    UpdateLastWins(map[], pairs);
    forall i | 0 <= i < |rs| && (forall j :: i < j < |rs| ==> rs[j].value.0 != rs[i].value.0)
      ensures LastWithKey(pairs, i)
    {
    }
  }

  /** The keys of `dict([...])` over results that all succeed, pair i having key `ks[i]`: exactly the entries of `ks`. */
  lemma CollectedKeys<K, V>(rs: seq<Result<(K, V)>>, ks: seq<K>)
    requires |ks| == |rs|
    requires forall i :: 0 <= i < |rs| ==> rs[i].Ok? && rs[i].value.0 == ks[i]
    ensures Collect(rs).Ok?
    ensures Update(map[], Collect(rs).value).Keys == set i | 0 <= i < |ks| :: ks[i]
  {
    CollectCases(rs);
    var pairs := Collect(rs).value;
    UpdateKeys(map[], pairs);
    KeysOfAt(pairs);
    forall k | k in KeysOf(pairs) ensures k in set i | 0 <= i < |ks| :: ks[i] {
      var i :| 0 <= i < |pairs| && pairs[i].0 == k;
      assert ks[i] == k;
    }
    forall k | k in set i | 0 <= i < |ks| :: ks[i] ensures k in KeysOf(pairs) {
      var i :| 0 <= i < |ks| && ks[i] == k;
      assert pairs[i].0 == k;
    }
  }

  /** One more result: `Collect` either keeps its failure or takes the new one in. */
  lemma CollectSnoc<T>(rs: seq<Result<T>>, x: Result<T>)
    ensures Collect(rs + [x]) ==
      match Collect(rs)
      case Err(e) => Err(e)
      case Ok(vs) => if x.Err? then Err(x.error) else Ok(vs + [x.value])
  {
    assert (rs + [x])[..|rs|] == rs;
  }

  /** Once a prefix fails, every extension fails the same way. */
  lemma {:induction false} CollectErrExtends<T>(rs: seq<Result<T>>, more: seq<Result<T>>)
    requires Collect(rs).Err?
    ensures Collect(rs + more) == Collect(rs)
  {
    if more != [] {
      var init := more[..|more| - 1];
      CollectErrExtends(rs, init);
      assert rs + more == (rs + init) + [more[|more| - 1]];
      CollectSnoc(rs + init, more[|more| - 1]);
    } else {
      assert rs + more == rs;
    }
  }

  /** One more item: `Distinct` appends it unless it was already seen. */
  lemma DistinctSnoc<T(!new)>(s: seq<T>, x: T)
    ensures Distinct(s + [x]) == if x in s then Distinct(s) else Distinct(s) + [x]
  {
    assert (s + [x])[..|s|] == s;
  }

  /** A failure after successes decides `Collect`, whatever follows it. */
  lemma CollectStops<T>(rs: seq<Result<T>>, x: Result<T>, more: seq<Result<T>>)
    requires Collect(rs).Ok? && x.Err?
    ensures Collect(rs + [x] + more) == Err(x.error)
  {
    CollectSnoc(rs, x);
    CollectErrExtends(rs + [x], more);
  }

  /** Extending a prefix by one item. */
  lemma AppendPrefix<T>(a: seq<T>, s: seq<T>, e: nat)
    requires e < |s|
    ensures a + s[..e + 1] == (a + s[..e]) + [s[e]]
  {
    assert s[..e + 1] == s[..e] + [s[e]];
  }
}
