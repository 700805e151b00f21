/** Token symbols and the sums the pool takes over its dictionaries: over the pool's
    token list (`sum` of a dict whose keys are exactly the tokens) and over every value
    of an arbitrary dict (`sum(d.values())`). */
module Amounts {

  type Token = string

  /** The pool's token list names each symbol once. */
  predicate Distinct(ts: seq<Token>) {
    forall i, j :: 0 <= i < j < |ts| ==> ts[i] != ts[j]
  }

  function TokenSet(ts: seq<Token>): set<Token> {
    set t | t in ts
  }

  /** Every token of `ts` has a positive amount in `m`. */
  ghost predicate AllPositive(ts: seq<Token>, m: map<Token, real>) {
    forall t :: t in ts ==> t in m && 0.0 < m[t]
  }

  /** Sum of `m[t]` over the tokens `ts`, added from left to right. */
  function SumOver(ts: seq<Token>, m: map<Token, real>): real
    requires forall t :: t in ts ==> t in m
  {
    if ts == [] then 0.0 else SumOver(ts[..|ts| - 1], m) + m[ts[|ts| - 1]]
  }

  /** Some key of a non-empty dict. */
  ghost function AnyKey(m: map<Token, real>): (k: Token)
    requires |m| > 0
    ensures k in m
  {
    var k :| k in m; k
  }

  /** Sum of every value of `m`, whatever its keys: non-negative when every value is,
      and positive when every value is and there is one. */
  ghost function MapSum(m: map<Token, real>): (s: real)
    ensures (forall k :: k in m ==> 0.0 <= m[k]) ==> 0.0 <= s
    ensures (forall k :: k in m ==> 0.0 < m[k]) && |m| > 0 ==> 0.0 < s
    decreases |m|
  {
    if |m| == 0 then 0.0
    else
      var k := AnyKey(m);
      assert (m - {k}).Keys == m.Keys - {k};
      m[k] + MapSum(m - {k})
  }

  /** The sum of a dict does not depend on which key is taken out first. */
  lemma {:induction false} MapSumRemove(m: map<Token, real>, j: Token)
    requires j in m
    ensures MapSum(m) == m[j] + MapSum(m - {j})
    decreases |m|
  {
    var k := AnyKey(m);
    if k != j {
      var mk, mj := m - {k}, m - {j};
      assert mk.Keys == m.Keys - {k} && mj.Keys == m.Keys - {j};
      assert |mk| < |m| && |mj| < |m|;
      assert j in mk && k in mj;
      MapSumRemove(mk, j);
      MapSumRemove(mj, k);
      assert mk - {j} == mj - {k};
    }
  }

  /** An entry of a dict of non-negative values is at most the dict's sum, and a
      positive entry makes the sum positive. */
  lemma MapEntryBelowSum(m: map<Token, real>, k: Token)
    requires k in m && forall j :: j in m ==> 0.0 <= m[j]
    ensures 0.0 <= m[k] <= MapSum(m)
    ensures 0.0 < m[k] ==> 0.0 < MapSum(m)
  {
    MapSumRemove(m, k);
    assert forall j :: j in m - {k} ==> 0.0 <= (m - {k})[j];
  }

  /** `sum(d.values())`: the loop Python's `sum` runs, in any order of the keys. */
  method SumValues(m: map<Token, real>) returns (s: real)
    ensures s == MapSum(m)
  {
    s := 0.0;
    var rest := m;
    while rest != map[]
      invariant s + MapSum(rest) == MapSum(m)
      decreases |rest|
    {
      var k :| k in rest;
      MapSumRemove(rest, k);
      s := s + rest[k];
      rest := rest - {k};
    }
  }

  /** Two dicts that agree on the tokens have the same sum over the tokens. */
  lemma {:induction false} SumOverAgree(ts: seq<Token>, m: map<Token, real>, n: map<Token, real>)
    requires forall t :: t in ts ==> t in m && t in n && m[t] == n[t]
    ensures SumOver(ts, m) == SumOver(ts, n)
  {
    if ts != [] {
      SumOverAgree(ts[..|ts| - 1], m, n);
    }
  }

  /** A dict keyed by exactly the distinct tokens sums to its sum over the tokens. */
  lemma {:induction false} MapSumIsSumOver(ts: seq<Token>, m: map<Token, real>)
    requires Distinct(ts) && m.Keys == TokenSet(ts)
    ensures MapSum(m) == SumOver(ts, m)
  {
    if ts == [] {
      assert m == map[];
    } else {
      var p, t := ts[..|ts| - 1], ts[|ts| - 1];
      var rest := m - {t};
      DropLast(ts, m, rest);
      MapSumRemove(m, t);
      MapSumIsSumOver(p, rest);
      SumOverAgree(p, rest, m);
    }
  }

  /** Removing the last token's key leaves a dict keyed by the other tokens. */
  lemma DropLast(ts: seq<Token>, m: map<Token, real>, rest: map<Token, real>)
    requires Distinct(ts) && ts != [] && m.Keys == TokenSet(ts)
    requires rest == m - {ts[|ts| - 1]}
    ensures Distinct(ts[..|ts| - 1]) && rest.Keys == TokenSet(ts[..|ts| - 1])
    ensures forall u :: u in ts[..|ts| - 1] ==> u in m && rest[u] == m[u]
  {
    var p, t := ts[..|ts| - 1], ts[|ts| - 1];
    assert ts == p + [t];
    assert t !in p by {
      forall i | 0 <= i < |p| ensures p[i] != t {
        assert ts[i] == p[i];
      }
    }
  }

  /** Dividing every entry by `d` divides the sum by `d`. */
  lemma {:induction false} SumOverDivided(ts: seq<Token>, m: map<Token, real>, n: map<Token, real>, d: real)
    requires d != 0.0
    requires forall t :: t in ts ==> t in m && t in n && n[t] == m[t] / d
    ensures SumOver(ts, n) == SumOver(ts, m) / d
  {
    if ts != [] {
      SumOverDivided(ts[..|ts| - 1], m, n, d);
    }
  }

  /** Multiplying every entry by `c` multiplies the sum by `c`. */
  lemma {:induction false} SumOverScaled(ts: seq<Token>, m: map<Token, real>, n: map<Token, real>, c: real)
    requires forall t :: t in ts ==> t in m && t in n && n[t] == c * m[t]
    ensures SumOver(ts, n) == c * SumOver(ts, m)
  {
    if ts != [] {
      SumOverScaled(ts[..|ts| - 1], m, n, c);
    }
  }

  /** A positive entry lies at or below the sum of positive entries, strictly below it
      when there is another token. */
  lemma {:induction false} EntryBelowSum(ts: seq<Token>, m: map<Token, real>, t: Token)
    requires forall u :: u in ts ==> u in m && 0.0 < m[u]
    requires t in ts
    ensures 0.0 < m[t] <= SumOver(ts, m)
    ensures |ts| >= 2 ==> m[t] < SumOver(ts, m)
  {
    var p, l := ts[..|ts| - 1], ts[|ts| - 1];
    assert ts == p + [l];
    if p == [] {
      assert t == l;
    } else {
      EntryBelowSum(p, m, p[0]);
      if t != l {
        EntryBelowSum(p, m, t);
      }
    }
  }

  /** Index of the first token that is not a key of the dict, or |ts| when every
      token is one: where a loop `for t in ts: d[t]` raises KeyError. */
  function FirstMissing(ts: seq<Token>, keys: set<Token>): (i: nat)
    ensures i <= |ts|
    ensures forall j :: 0 <= j < i ==> ts[j] in keys
    ensures i < |ts| ==> ts[i] !in keys
  {
    if ts == [] || ts[0] !in keys then 0 else 1 + FirstMissing(ts[1..], keys)
  }

  /** `balances[t] += amount[t]` for the first `n` tokens, skipping tokens the dict of
      amounts does not name. */
  function AddPrefix(ts: seq<Token>, b: map<Token, real>, d: map<Token, real>, n: nat): map<Token, real>
    requires n <= |ts|
    requires forall t :: t in ts ==> t in b
  {
    if n == 0 then b
    else
      var c := AddPrefix(ts, b, d, n - 1);
      var t := ts[n - 1];
      if t in d && t in c then c[t := c[t] + d[t]] else c
  }

  lemma {:induction false} AddPrefixKeys(ts: seq<Token>, b: map<Token, real>, d: map<Token, real>, n: nat)
    requires n <= |ts|
    requires forall t :: t in ts ==> t in b
    ensures AddPrefix(ts, b, d, n).Keys == b.Keys
  {
    if n > 0 {
      AddPrefixKeys(ts, b, d, n - 1);
    }
  }

  /** After the first `n` updates, token `ts[j]` holds its old balance plus its amount
      exactly when it is among the first `n` and the dict names it. */
  lemma {:induction false} AddPrefixAt(ts: seq<Token>, b: map<Token, real>, d: map<Token, real>, n: nat, j: nat)
    requires Distinct(ts) && n <= |ts| && j < |ts|
    requires forall t :: t in ts ==> t in b
    ensures AddPrefix(ts, b, d, n).Keys == b.Keys
    ensures AddPrefix(ts, b, d, n)[ts[j]]
            == b[ts[j]] + (if j < n && ts[j] in d then d[ts[j]] else 0.0)
  {
    AddPrefixKeys(ts, b, d, n);
    if n > 0 {
      AddPrefixAt(ts, b, d, n - 1, j);
    }
  }

  /** The first `n` updates, token by token. */
  lemma AddPrefixPointwise(ts: seq<Token>, b: map<Token, real>, d: map<Token, real>, n: nat)
    requires Distinct(ts) && n <= |ts|
    requires forall t :: t in ts ==> t in b
    ensures AddPrefix(ts, b, d, n).Keys == b.Keys
    ensures forall j :: 0 <= j < |ts| ==>
              AddPrefix(ts, b, d, n)[ts[j]] == b[ts[j]] + (if j < n && ts[j] in d then d[ts[j]] else 0.0)
  {
    AddPrefixKeys(ts, b, d, n);
    forall j | 0 <= j < |ts|
      ensures AddPrefix(ts, b, d, n)[ts[j]] == b[ts[j]] + (if j < n && ts[j] in d then d[ts[j]] else 0.0)
    {
      AddPrefixAt(ts, b, d, n, j);
    }
  }
}
