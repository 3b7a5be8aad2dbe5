/**
 The lookup table of `CommonPrefixSplit` (core.go:29, 57-62, 114-119): candidates
 grouped by the substring they spell, then by the index of the name they lie in,
 each list in the order the candidates were appended.
 */
module Groups {
  import opened Candidates

  type Table = map<string, map<nat, seq<Match>>>

  /** The list stored for `s` and name `ni`, empty when either key is absent. */
  function Lookup(t: Table, s: string, ni: nat): seq<Match> {
    if s in t && ni in t[s] then t[s][ni] else []
  }

  /** The two-level append of core.go:57-62 (and core.go:114-119). */
  function Insert(t: Table, s: string, ni: nat, m: Match): Table {
    var inner: map<nat, seq<Match>> := if s !in t then map[ni := [m]] else t[s][ni := Lookup(t, s, ni) + [m]];
    t[s := inner]
  }

  /** No key of either level maps to an empty collection. */
  ghost predicate Tidy(t: Table) {
    forall s | s in t :: |t[s]| > 0 && forall ni | ni in t[s] :: |t[s][ni]| > 0
  }

  /** In a tidy table a key pair is present exactly when its list is non-empty. */
  lemma TidyLookup(t: Table, s: string, ni: nat)
    requires Tidy(t)
    ensures (s in t && ni in t[s]) <==> |Lookup(t, s, ni)| > 0
  {
  }

  /** Appending keeps the table tidy and adds `s` as a key if it was not one. */
  lemma InsertTidy(t: Table, s: string, ni: nat, m: Match)
    requires Tidy(t)
    ensures Tidy(Insert(t, s, ni, m))
    ensures Insert(t, s, ni, m).Keys == t.Keys + {s}
  {
    var t' := Insert(t, s, ni, m);
    var inner: map<nat, seq<Match>> := if s !in t then map[ni := [m]] else t[s][ni := Lookup(t, s, ni) + [m]];
    assert t' == t[s := inner];
    assert ni in inner && |inner[ni]| > 0;
    forall ni' | ni' in inner ensures |inner[ni']| > 0 {
      if ni' != ni {
        assert s in t && ni' in t[s] && inner[ni'] == t[s][ni'];
      }
    }
    forall s' | s' in t' ensures |t'[s']| > 0 && forall ni' | ni' in t'[s'] :: |t'[s'][ni']| > 0 {
      if s' == s {
        assert t'[s'] == inner;
      } else {
        assert t'[s'] == t[s'];
      }
    }
    assert t'.Keys == t.Keys + {s};
  }

  /** Appending adds `m` to the end of the one list for `s` and `ni`, and to no other list. */
  lemma InsertLookup(t: Table, s: string, ni: nat, m: Match, s': string, ni': nat)
    ensures Lookup(Insert(t, s, ni, m), s', ni') ==
            Lookup(t, s', ni') + (if s' == s && ni' == ni then [m] else [])
  {
  }

  /** The candidates of `ms` that spell `s`, in order. */
  function Filter(name: string, ms: seq<Match>, s: string): seq<Match>
    requires Fits(name, ms)
  {
    if |ms| == 0 then []
    else (if Spell(name, ms[0]) == s then [ms[0]] else []) + Filter(name, ms[1..], s)
  }

  /** The filtered list holds exactly the candidates of `ms` that spell `s`. */
  lemma {:induction false} FilterMembers(name: string, ms: seq<Match>, s: string)
    requires Fits(name, ms)
    ensures forall m :: m in Filter(name, ms, s) <==> m in ms && m.pos + m.len <= |name| && Spell(name, m) == s
  {
    if |ms| > 0 {
      FilterMembers(name, ms[1..], s);
      assert ms == [ms[0]] + ms[1..];
    }
  }

  /** Filtering keeps the shape of a candidate list. */
  lemma {:induction false} FilterValid(name: string, ms: seq<Match>, s: string, L: nat, trim: string)
    requires ValidList(name, ms, L, trim)
    ensures ValidList(name, Filter(name, ms, s), L, trim)
  {
    if |ms| > 0 {
      var rest := Filter(name, ms[1..], s);
      ValidTail(name, ms, L, trim);
      FilterValid(name, ms[1..], s, L, trim);
      if Spell(name, ms[0]) == s {
        FilterMembers(name, ms[1..], s);
        HeadLeftOfTail(ms);
        ConsValid(name, ms[0], rest, L, trim);
      }
    }
  }

  /** The first candidate of the filtered list is the leftmost candidate spelling `s`. */
  lemma {:induction false} FilterLeftmost(name: string, ms: seq<Match>, s: string, m: Match)
    requires Sorted(ms) && Fits(name, ms)
    requires m in ms && Spell(name, m) == s
    ensures |Filter(name, ms, s)| > 0 && Filter(name, ms, s)[0].pos <= m.pos
  {
    var i :| 0 <= i < |ms| && ms[i] == m;
    if Spell(name, ms[0]) != s {
      assert i > 0 && ms[1..][i - 1] == m;
      FilterLeftmost(name, ms[1..], s, m);
    }
  }

  /** Appends the candidates of one name, in order, under the substrings they spell. */
  function GroupName(name: string, ni: nat, ms: seq<Match>, t: Table): Table
    requires Fits(name, ms)
  {
    if |ms| == 0 then t
    else GroupName(name, ni, ms[1..], Insert(t, Spell(name, ms[0]), ni, ms[0]))
  }

  lemma {:induction false} GroupNameTidy(name: string, ni: nat, ms: seq<Match>, t: Table)
    requires Fits(name, ms)
    requires Tidy(t)
    ensures Tidy(GroupName(name, ni, ms, t))
  {
    if |ms| > 0 {
      InsertTidy(t, Spell(name, ms[0]), ni, ms[0]);
      GroupNameTidy(name, ni, ms[1..], Insert(t, Spell(name, ms[0]), ni, ms[0]));
    }
  }

  lemma {:induction false} GroupNameLookup(name: string, ni: nat, ms: seq<Match>, t: Table, s: string, ni': nat)
    requires Fits(name, ms)
    ensures Lookup(GroupName(name, ni, ms, t), s, ni') ==
            Lookup(t, s, ni') + (if ni' == ni then Filter(name, ms, s) else [])
  {
    if |ms| > 0 {
      var t' := Insert(t, Spell(name, ms[0]), ni, ms[0]);
      InsertLookup(t, Spell(name, ms[0]), ni, ms[0], s, ni');
      GroupNameLookup(name, ni, ms[1..], t', s, ni');
      if ni' == ni {
        if Spell(name, ms[0]) == s {
          assert Lookup(t, s, ni) + [ms[0]] + Filter(name, ms[1..], s) ==
                 Lookup(t, s, ni) + ([ms[0]] + Filter(name, ms[1..], s));
        } else {
          assert [] + Filter(name, ms[1..], s) == Filter(name, ms[1..], s);
        }
      } else {
        assert Lookup(t', s, ni') == Lookup(t, s, ni') + [];
      }
    }
  }

  /** Every candidate list fits its name. */
  predicate AllFit(names: seq<string>, cands: seq<seq<Match>>) {
    |cands| == |names| && forall ni | 0 <= ni < |names| :: Fits(names[ni], cands[ni])
  }

  /** Groups the candidates of names `k..` into `t`, name by name (core.go:40 and core.go:96). */
  function GroupFrom(names: seq<string>, cands: seq<seq<Match>>, k: nat, t: Table): Table
    requires AllFit(names, cands)
    decreases |names| - k
  {
    if k >= |names| then t
    else GroupFrom(names, cands, k + 1, GroupName(names[k], k, cands[k], t))
  }

  lemma {:induction false} GroupFromTidy(names: seq<string>, cands: seq<seq<Match>>, k: nat, t: Table)
    requires AllFit(names, cands)
    requires Tidy(t)
    ensures Tidy(GroupFrom(names, cands, k, t))
    decreases |names| - k
  {
    if k < |names| {
      GroupNameTidy(names[k], k, cands[k], t);
      GroupFromTidy(names, cands, k + 1, GroupName(names[k], k, cands[k], t));
    }
  }

  lemma {:induction false} GroupFromLookup(names: seq<string>, cands: seq<seq<Match>>, k: nat, t: Table, s: string, ni: nat)
    requires AllFit(names, cands)
    ensures Lookup(GroupFrom(names, cands, k, t), s, ni) ==
            Lookup(t, s, ni) + (if k <= ni < |names| then Filter(names[ni], cands[ni], s) else [])
    decreases |names| - k
  {
    if k < |names| {
      var t' := GroupName(names[k], k, cands[k], t);
      assert GroupFrom(names, cands, k, t) == GroupFrom(names, cands, k + 1, t');
      var before, after := Lookup(t, s, ni), Lookup(t', s, ni);
      GroupNameLookup(names[k], k, cands[k], t, s, ni);
      GroupFromLookup(names, cands, k + 1, t', s, ni);
      if ni == k {
        assert after == before + Filter(names[ni], cands[ni], s);
        assert after + [] == after;
      } else {
        assert after == before + [];
        assert before + [] == before;
      }
    }
  }

  /** The table built from one list of candidates per name. */
  function Group(names: seq<string>, cands: seq<seq<Match>>): Table
    requires AllFit(names, cands)
  {
    GroupFrom(names, cands, 0, map[])
  }

  /**
   Grouping is a partition: the list under `s` and name `ni` is exactly that
   name's candidates spelling `s`, in their original order, and no key of the
   table holds an empty collection.
   */
  lemma GroupSpec(names: seq<string>, cands: seq<seq<Match>>)
    requires AllFit(names, cands)
    ensures Tidy(Group(names, cands))
    ensures forall s, ni: nat :: Lookup(Group(names, cands), s, ni) ==
              (if ni < |names| then Filter(names[ni], cands[ni], s) else [])
  {
    GroupFromTidy(names, cands, 0, map[]);
    forall s, ni: nat ensures Lookup(Group(names, cands), s, ni) ==
                              (if ni < |names| then Filter(names[ni], cands[ni], s) else [])
    {
      GroupFromLookup(names, cands, 0, map[], s, ni);
      assert Lookup(map[], s, ni) == [];
    }
  }

  /** The group of `s` holds a list for each of the first `n` names. */
  predicate Complete(t: Table, s: string, n: nat) {
    s in t && forall ni | 0 <= ni < n :: ni in t[s]
  }

  /** The name indices `0..n-1`. */
  function Below(n: nat): (r: set<nat>)
    ensures forall ni: nat :: ni in r <==> ni < n
  {
    if n == 0 then {} else Below(n - 1) + {n - 1}
  }

  lemma {:induction false} BelowSize(n: nat)
    ensures |Below(n)| == n
  {
    if n > 0 {
      var b := Below(n - 1);
      BelowSize(n - 1);
      assert n - 1 !in b;
      assert Below(n) == b + {n - 1};
      assert |b + {n - 1}| == |b| + 1;
    }
  }

  lemma {:induction false} SubsetSize(a: set<nat>, b: set<nat>)
    requires a <= b
    ensures |a| <= |b|
    ensures a != b ==> |a| < |b|
    decreases |a|
  {
    if a != b {
      assert !(b <= a);
      var y :| y in b && y !in a;
      if a == {} {
        assert y in b;
      } else {
        var x :| x in a;
        SubsetSize(a - {x}, b - {x, y});
        assert |b - {x, y}| == |b| - 2;
      }
    } else if a != {} {
      var x :| x in a;
      SubsetSize(a - {x}, b - {x});
    }
  }

  /**
   When the name indices under `s` are all below `n`, counting them (Go's
   `len(prefixMap) < len(names)`, core.go:69) decides completeness.
   */
  lemma CountComplete(t: Table, s: string, n: nat)
    requires s in t
    requires forall ni | ni in t[s] :: ni < n
    ensures |t[s]| >= n <==> Complete(t, s, n)
  {
    var keys := t[s].Keys;
    BelowSize(n);
    SubsetSize(keys, Below(n));
    if Complete(t, s, n) {
      assert keys == Below(n);
    } else {
      var missing :| 0 <= missing < n && missing !in t[s];
      assert missing in Below(n) - keys;
    }
  }

  /** Every candidate of `ms` lies inside `name` and spells `s`. */
  predicate AllSpell(name: string, ms: seq<Match>, s: string) {
    forall j | 0 <= j < |ms| :: ms[j].pos + ms[j].len <= |name| && Spell(name, ms[j]) == s
  }

  /** The list of name `ni` in group `g` of key `s` is well formed. */
  predicate EntryOK(names: seq<string>, g: map<nat, seq<Match>>, s: string, ni: nat, L: nat, trim: string) {
    && ni in g
    && ni < |names|
    && |g[ni]| > 0
    && ValidList(names[ni], g[ni], L, trim)
    && AllSpell(names[ni], g[ni], s)
  }

  /** Key `s` of the table has length `L` and a non-empty, well-formed group. */
  predicate KeyOK(names: seq<string>, t: Table, s: string, L: nat, trim: string) {
    && s in t
    && |s| == L
    && |t[s]| > 0
    && forall ni | ni in t[s] :: EntryOK(names, t[s], s, ni, L, trim)
  }

  /**
   The table is well formed for round length `L`: every key has length `L`,
   every name index is in range, and every list is non-empty, sorted, well
   placed, and spells its key.
   */
  predicate TableOK(names: seq<string>, t: Table, L: nat, trim: string) {
    forall s | s in t :: KeyOK(names, t, s, L, trim)
  }

  /** The first candidate of a well-formed entry spells the key from a non-trim byte. */
  lemma EntryHead(names: seq<string>, g: map<nat, seq<Match>>, s: string, ni: nat, L: nat, trim: string)
    requires EntryOK(names, g, s, ni, L, trim)
    ensures var m := g[ni][0];
            && m.len == L && m.pos + L <= |names[ni]|
            && names[ni][m.pos..m.pos + L] == s
            && names[ni][m.pos] !in trim
  {
    assert WellPlaced(names[ni], g[ni][0], L, trim);
    assert Spell(names[ni], g[ni][0]) == s;
  }

  lemma TableOKTidy(names: seq<string>, t: Table, L: nat, trim: string)
    requires TableOK(names, t, L, trim)
    ensures Tidy(t)
  {
    forall s | s in t ensures |t[s]| > 0 && forall ni | ni in t[s] :: |t[s][ni]| > 0 {
      assert KeyOK(names, t, s, L, trim);
    }
  }

  /** Grouping valid candidate lists yields a well-formed table. */
  lemma GroupOK(names: seq<string>, cands: seq<seq<Match>>, L: nat, trim: string)
    requires Valid(names, cands, L, trim)
    requires AllFit(names, cands)
    ensures TableOK(names, Group(names, cands), L, trim)
  {
    var t := Group(names, cands);
    GroupSpec(names, cands);
    forall s | s in t ensures KeyOK(names, t, s, L, trim) {
      forall ni: nat | ni in t[s] ensures EntryOK(names, t[s], s, ni, L, trim) {
        assert Lookup(t, s, ni) == t[s][ni];
        FilterValid(names[ni], cands[ni], s, L, trim);
        FilterMembers(names[ni], cands[ni], s);
        var ms: seq<Match> := t[s][ni];
        forall j | 0 <= j < |ms| ensures ms[j].pos + ms[j].len <= |names[ni]| && Spell(names[ni], ms[j]) == s {
          assert ms[j] in Filter(names[ni], cands[ni], s);
        }
      }
      var ni :| ni in t[s];
      assert EntryOK(names, t[s], s, ni, L, trim);
      assert Spell(names[ni], t[s][ni][0]) == s;
    }
  }
}
