/** Folding one extractor's result into the data collected so far. */
module Merge {
  import opened Wrappers
  import opened Subsequence
  import opened ScrapTypes

  /** Two keyed maps with the keys of `done` (all keys of `b`) folded in: the union of the keys, a
      shared key holding the accumulated list followed by the incoming one. */
  function Combine(a: map<string, seq<string>>, b: map<string, seq<string>>, done: set<string>): (r: map<string, seq<string>>)
    requires done <= b.Keys
  {
    map k | k in a.Keys + done :: (if k in a then a[k] else []) + (if k in done then b[k] else [])
  }

  /** What the accumulated value of a field becomes once an incoming value is merged in: an absent
      value takes the incoming one, two lists concatenate, two keyed maps combine key by key. When
      the shapes differ the accumulated value is kept. */
  function Merged(src: Option<FieldValue>, tar: FieldValue): (r: FieldValue)
    ensures src.None? ==> r == tar
    ensures src.Some? && src.value.List? && tar.List? ==>
      r.List? && |r.items| == |src.value.items| + |tar.items| &&
      r.items[..|src.value.items|] == src.value.items && r.items[|src.value.items|..] == tar.items
    ensures src.Some? && src.value.Keyed? && tar.Keyed? ==>
      r.Keyed? && r.entries.Keys == src.value.entries.Keys + tar.entries.Keys
    ensures src.Some? && (src.value.List? != tar.List?) ==> r == src.value
  {
    match src
    case None => tar
    case Some(s) =>
      if s.List? && tar.List? then List(s.items + tar.items)
      else if s.Keyed? && tar.Keyed? then Keyed(Combine(s.entries, tar.entries, tar.entries.Keys))
      else s
  }

  /** _merge: a list is concatenated; a keyed map is updated key by key, in place in the source, taking
      a new key's list as it is and appending to the list of a key already present. */
  method MergeValue(src: Option<FieldValue>, tar: FieldValue) returns (r: FieldValue)
    ensures r == Merged(src, tar)
  {
    if src.None? {
      return tar;
    }
    var s := src.value;
    if s.List? && tar.List? {
      return List(s.items + tar.items);
    }
    if s.Keyed? && tar.Keyed? {
      var entries := MergeEntries(s.entries, tar.entries);
      return Keyed(entries);
    }
    return s;
  }

  /** The keyed branch of _merge: every key of the incoming map is visited once and folded into the
      accumulated map. */
  method MergeEntries(a: map<string, seq<string>>, b: map<string, seq<string>>) returns (entries: map<string, seq<string>>)
    ensures entries == Combine(a, b, b.Keys)
  {
    entries := a;
    var keys := b.Keys;
    CombineNone(a, b);
    assert b.Keys - keys == {};
    while keys != {}
      invariant keys <= b.Keys
      invariant entries == Combine(a, b, b.Keys - keys)
      decreases |keys|
    {
      var k :| k in keys;
      VisitKey(a, b, keys, k, entries);
      entries := if k !in entries then entries[k := b[k]] else entries[k := entries[k] + b[k]];
      keys := keys - {k};
    }
    assert b.Keys - keys == b.Keys;
  }

  /** Visiting one more key keeps the accumulated map equal to the fold of the keys visited. */
  lemma VisitKey(a: map<string, seq<string>>, b: map<string, seq<string>>, keys: set<string>, k: string,
                 entries: map<string, seq<string>>)
    requires keys <= b.Keys && k in keys && entries == Combine(a, b, b.Keys - keys)
    ensures (if k !in entries then entries[k := b[k]] else entries[k := entries[k] + b[k]])
      == Combine(a, b, b.Keys - (keys - {k}))
  {
    CombineStep(a, b, b.Keys - keys, k);
    assert b.Keys - (keys - {k}) == (b.Keys - keys) + {k};
  }

  lemma CombineNone(a: map<string, seq<string>>, b: map<string, seq<string>>)
    ensures Combine(a, b, {}) == a
  {
    forall k | k in a
      ensures Combine(a, b, {})[k] == a[k]
    {
      assert a[k] + [] == a[k];
    }
  }

  /** Folding in one more key of `b`: it is added with its list, or its list is appended to the
      accumulated one. */
  lemma CombineStep(a: map<string, seq<string>>, b: map<string, seq<string>>, done: set<string>, k: string)
    requires done <= b.Keys && k in b && k !in done
    ensures var c := Combine(a, b, done);
      Combine(a, b, done + {k}) == if k !in c then c[k := b[k]] else c[k := c[k] + b[k]]
  {
    var c := Combine(a, b, done);
    var d := Combine(a, b, done + {k});
    var e := if k !in c then c[k := b[k]] else c[k := c[k] + b[k]];
    assert d.Keys == e.Keys;
    forall j | j in d
      ensures d[j] == e[j]
    {
      if j == k && k in a {
        assert c[k] == a[k] + [];
      } else if j == k {
        assert d[k] == [] + b[k];
      }
    }
  }

  /** The merged map holds the keys of both sides, and under each key the accumulated list is kept as
      a prefix and the incoming list ends it; a key on both sides holds exactly the two lists joined. */
  lemma MergeKeyed(a: map<string, seq<string>>, b: map<string, seq<string>>)
    ensures var r := Merged(Some(Keyed(a)), Keyed(b));
      r.Keyed? && r.entries.Keys == a.Keys + b.Keys &&
      (forall k :: k in a ==> a[k] <= r.entries[k]) &&
      (forall k :: k in b ==> exists p :: r.entries[k] == p + b[k]) &&
      (forall k :: k in a && k !in b ==> r.entries[k] == a[k]) &&
      (forall k :: k in b && k !in a ==> r.entries[k] == b[k]) &&
      (forall k :: k in a && k in b ==> r.entries[k] == a[k] + b[k])
  {
    var r := Combine(a, b, b.Keys);
    forall k | k in b
      ensures exists p :: r[k] == p + b[k]
    {
      var p := if k in a then a[k] else [];
      assert r[k] == p + b[k];
    }
    forall k | k in a && k !in b
      ensures r[k] == a[k]
    {
      assert r[k] == a[k] + [];
    }
  }

  /** Two lists merge into the accumulated list followed by the incoming one. */
  lemma MergeLists(a: seq<string>, b: seq<string>)
    ensures var r := Merged(Some(List(a)), List(b));
      r.List? && |r.items| == |a| + |b| && r.items[..|a|] == a && r.items[|a|..] == b
  {
  }

  /** Merging never loses a collected string. */
  lemma MergeKeeps(src: FieldValue, tar: FieldValue, s: string)
    requires Holds(src, s)
    ensures Holds(Merged(Some(src), tar), s)
  {
    if src.Keyed? && tar.Keyed? {
      var k :| k in src.entries && s in src.entries[k];
      MergeKeyed(src.entries, tar.entries);
      var r := Merged(Some(src), tar).entries;
      assert src.entries[k] <= r[k];
      var i :| 0 <= i < |src.entries[k]| && src.entries[k][i] == s;
      assert r[k][i] == s;
    }
  }

  /** A merge made of strings from a text is made of strings from that text. */
  lemma WithinMerge(src: Option<FieldValue>, tar: FieldValue, text: string)
    requires src.Some? ==> Within(src.value, text)
    requires Within(tar, text)
    ensures Within(Merged(src, tar), text)
  {
    if src.Some? && src.value.Keyed? && tar.Keyed? {
      var a, b := src.value.entries, tar.entries;
      var r := Combine(a, b, b.Keys);
      forall k, i | k in r && 0 <= i < |r[k]|
        ensures Subseq(r[k][i], text)
      {
        var p := if k in a then a[k] else [];
        var q := if k in b then b[k] else [];
        assert r[k] == p + q;
        if i < |p| {
          assert r[k][i] == a[k][i];
        } else {
          assert r[k][i] == b[k][i - |p|];
        }
      }
    } else if src.Some? && src.value.List? && tar.List? {
      var a, b := src.value.items, tar.items;
      forall i | 0 <= i < |a + b|
        ensures Subseq((a + b)[i], text)
      {
        if i >= |a| {
          assert (a + b)[i] == b[i - |a|];
        }
      }
    }
  }
}
