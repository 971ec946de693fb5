/** The pure part of the redirector: turning the URL path into a lookup key,
    the exact case-insensitive lookup, and the substring search over the table. */
module Resolver {
  import opened Types
  import opened Text

  // ---------------------------------------------------------------------------
  // Path to key
  // ---------------------------------------------------------------------------

  predicate StartsWithSlash(path: string)
  {
    |path| > 0 && path[0] == '/'
  }

  /** The lookup key: the path with one leading '/' removed when it has one,
      the path itself otherwise. */
  function KeyFromPath(path: string): (key: string)
    ensures StartsWithSlash(path) ==> path == "/" + key
    ensures !StartsWithSlash(path) ==> key == path
  {
    if StartsWithSlash(path) then path[1..] else path
  }

  /** Exactly one separator is removed: putting a '/' in front of any key
      gives back that key, so "//x" yields "/x" and "/" yields "". */
  lemma KeyFromPathInverse(key: string)
    ensures KeyFromPath("/" + key) == key
    ensures KeyFromPath("//" + key) == "/" + key
    ensures KeyFromPath("/") == ""
  {
    assert "//" + key == "/" + ("/" + key);
    assert "/" + "" == "/";
  }

  // ---------------------------------------------------------------------------
  // Exact lookup (Array.prototype.find on the lowered names)
  // ---------------------------------------------------------------------------

  /** The record's name equals the key once both are lowered. */
  predicate NameMatches(u: UserData, key: string)
  {
    Lower(u.nama) == Lower(key)
  }

  /** `i` is the first position of the table whose name matches the key. */
  predicate FirstMatch(table: seq<UserData>, key: string, i: int)
  {
    && 0 <= i < |table|
    && NameMatches(table[i], key)
    && forall j :: 0 <= j < i ==> !NameMatches(table[j], key)
  }

  /** The first record, in table order, whose name matches the key. */
  function FindExact(table: seq<UserData>, key: string): (r: Option<UserData>)
    ensures r.Some? ==> r.value in table && NameMatches(r.value, key)
  {
    if table == [] then None
    else if NameMatches(table[0], key) then Some(table[0])
    else FindExact(table[1..], key)
  }

  /** The lookup misses exactly when no record matches, and otherwise returns
      the record at the first matching position. */
  lemma {:induction false} FindExactFirstMatch(table: seq<UserData>, key: string)
    ensures FindExact(table, key).None? <==> forall i :: 0 <= i < |table| ==> !NameMatches(table[i], key)
    ensures forall i :: FirstMatch(table, key, i) ==> FindExact(table, key) == Some(table[i])
  {
    if table != [] && !NameMatches(table[0], key) {
      FindExactFirstMatch(table[1..], key);
      forall i | FirstMatch(table, key, i) ensures FindExact(table, key) == Some(table[i]) {
        assert FirstMatch(table[1..], key, i - 1);
      }
      if forall i :: 0 <= i < |table| - 1 ==> !NameMatches(table[1..][i], key) {
        forall i | 0 <= i < |table| ensures !NameMatches(table[i], key) {
          if i > 0 { assert table[i] == table[1..][i - 1]; }
        }
      }
    }
  }

  /** Changing the letter case of the key never changes the record found. */
  lemma {:induction false} FindExactIgnoresCase(table: seq<UserData>, a: string, b: string)
    requires Lower(a) == Lower(b)
    ensures FindExact(table, a) == FindExact(table, b)
  {
    if table != [] {
      FindExactIgnoresCase(table[1..], a, b);
    }
  }

  /** No two records have names that are equal once lowered. */
  predicate DistinctKeys(table: seq<UserData>)
  {
    forall i, j :: 0 <= i < j < |table| ==> Lower(table[i].nama) != Lower(table[j].nama)
  }

  /** When names are distinct up to case, the first match is the only match:
      every record is found by its own name written in any letter case. */
  lemma FindExactUnique(table: seq<UserData>, i: int, key: string)
    requires DistinctKeys(table)
    requires 0 <= i < |table| && Lower(key) == Lower(table[i].nama)
    ensures FindExact(table, key) == Some(table[i])
  {
    assert FirstMatch(table, key, i);
    FindExactFirstMatch(table, key);
  }

  // ---------------------------------------------------------------------------
  // Search (Array.prototype.filter on lowered name or description)
  // ---------------------------------------------------------------------------

  /** The lowered query occurs in the lowered name or the lowered description. */
  predicate QueryMatches(u: UserData, query: string)
  {
    Includes(Lower(u.nama), Lower(query)) || Includes(Lower(u.deskripsi), Lower(query))
  }

  /** The records that match the query, in table order. */
  function Filter(table: seq<UserData>, query: string): (r: seq<UserData>)
    ensures |r| <= |table|
  {
    if table == [] then []
    else (if QueryMatches(table[0], query) then [table[0]] else []) + Filter(table[1..], query)
  }

  /** The search results: nothing for a query that trims to empty, the
      matching records for any other. The raw, untrimmed query is matched. */
  function Search(table: seq<UserData>, query: string): (r: seq<UserData>)
    ensures |r| <= |table|
  {
    if Trim(query) == "" then [] else Filter(table, query)
  }

  /** `s` can be obtained from `t` by deleting elements, keeping the order. */
  predicate IsSubsequence<T(==)>(s: seq<T>, t: seq<T>)
    decreases |t|
  {
    if s == [] then true
    else if t == [] then false
    else if s[0] == t[0] then IsSubsequence(s[1..], t[1..])
    else IsSubsequence(s, t[1..])
  }

  /** The filter keeps the table order, keeps only matching records, and
      keeps every matching record as often as the table holds it. */
  lemma {:induction false} FilterSpec(table: seq<UserData>, query: string)
    ensures IsSubsequence(Filter(table, query), table)
    ensures forall u :: u in Filter(table, query) ==> QueryMatches(u, query)
    ensures forall i :: 0 <= i < |table| && QueryMatches(table[i], query) ==> table[i] in Filter(table, query)
    ensures forall x ::
              multiset(Filter(table, query))[x] == if QueryMatches(x, query) then multiset(table)[x] else 0
  {
    FilterCounts(table, query);
    if table != [] {
      FilterSpec(table[1..], query);
      var rest := Filter(table[1..], query);
      if QueryMatches(table[0], query) {
        assert Filter(table, query) == [table[0]] + rest;
        assert ([table[0]] + rest)[1..] == rest;
      } else {
        assert Filter(table, query) == rest;
        if rest != [] {
          assert rest[0] in rest;
        }
      }
      forall i | 0 <= i < |table| && QueryMatches(table[i], query)
        ensures table[i] in Filter(table, query)
      {
        if i > 0 { assert table[i] == table[1..][i - 1]; }
      }
    }
  }

  /** The filter keeps each matching record as many times as the table holds
      it, and no other record. */
  lemma {:induction false} FilterCounts(table: seq<UserData>, query: string)
    ensures forall x ::
              multiset(Filter(table, query))[x] == if QueryMatches(x, query) then multiset(table)[x] else 0
  {
    if table != [] {
      FilterCounts(table[1..], query);
      assert table == [table[0]] + table[1..];
      assert multiset(table) == multiset{table[0]} + multiset(table[1..]);
    }
  }

  /** The filter distributes over concatenation of tables, so it decides each
      record on its own, independently of its neighbours. */
  lemma {:induction false} FilterAppend(t1: seq<UserData>, t2: seq<UserData>, query: string)
    ensures Filter(t1 + t2, query) == Filter(t1, query) + Filter(t2, query)
  {
    if t1 == [] {
      assert t1 + t2 == t2;
    } else {
      var head := if QueryMatches(t1[0], query) then [t1[0]] else [];
      assert (t1 + t2)[0] == t1[0] && (t1 + t2)[1..] == t1[1..] + t2;
      assert Filter(t1 + t2, query) == head + Filter(t1[1..] + t2, query);
      FilterAppend(t1[1..], t2, query);
      assert Filter(t1, query) == head + Filter(t1[1..], query);
    }
  }

  /** Filtering the results again with the same query changes nothing. */
  lemma {:induction false} FilterIdempotent(table: seq<UserData>, query: string)
    ensures Filter(Filter(table, query), query) == Filter(table, query)
  {
    if table != [] {
      FilterIdempotent(table[1..], query);
      var head := if QueryMatches(table[0], query) then [table[0]] else [];
      FilterAppend(head, Filter(table[1..], query), query);
      if QueryMatches(table[0], query) {
        assert Filter(head, query) == head by { assert head == [table[0]]; assert head[1..] == []; }
      }
    }
  }

  /** What the search returns: nothing for an all-whitespace query; otherwise
      an order-preserving selection of the table holding exactly the
      records whose lowered name or description contains the lowered query. */
  lemma SearchSpec(table: seq<UserData>, query: string)
    ensures AllWhitespace(query) ==> Search(table, query) == []
    ensures !AllWhitespace(query) ==>
      && Search(table, query) == Filter(table, query)
      && IsSubsequence(Search(table, query), table)
      && (forall u :: u in Search(table, query) ==> QueryMatches(u, query))
      && (forall i :: 0 <= i < |table| && QueryMatches(table[i], query) ==> table[i] in Search(table, query))
      && (forall x ::
            multiset(Search(table, query))[x] == if QueryMatches(x, query) then multiset(table)[x] else 0)
  {
    TrimEmptyIffBlank(query);
    FilterSpec(table, query);
  }

  /** The results are always an order-preserving selection of the table. */
  lemma SearchIsSubsequence(table: seq<UserData>, query: string)
    ensures IsSubsequence(Search(table, query), table)
  {
    FilterSpec(table, query);
  }

  /** Searching the results again with the same query gives the same results. */
  lemma SearchIdempotent(table: seq<UserData>, query: string)
    ensures Search(Search(table, query), query) == Search(table, query)
  {
    FilterIdempotent(table, query);
  }

  /** A non-blank query finds nothing exactly when no record matches it. */
  lemma SearchEmptyIff(table: seq<UserData>, query: string)
    requires !AllWhitespace(query)
    ensures Search(table, query) == [] <==> forall i :: 0 <= i < |table| ==> !QueryMatches(table[i], query)
  {
    SearchSpec(table, query);
    var r := Search(table, query);
    if r != [] {
      assert r[0] in r;
      assert QueryMatches(r[0], query);
      assert IsSubsequence(r, table);
      SubsequenceMember(r, table, r[0]);
    }
  }

  /** Every element of a subsequence is an element of the whole. */
  lemma {:induction false} SubsequenceMember<T>(s: seq<T>, t: seq<T>, x: T)
    requires IsSubsequence(s, t) && x in s
    ensures x in t
    decreases |t|
  {
    if s[0] == t[0] {
      if x != s[0] {
        assert x in s[1..];
        SubsequenceMember(s[1..], t[1..], x);
      }
    } else {
      SubsequenceMember(s, t[1..], x);
    }
  }

  /** The search folds case the same way as the lookup: queries that are
      equal once lowered give the same results. */
  lemma SearchIgnoresCase(table: seq<UserData>, a: string, b: string)
    requires Lower(a) == Lower(b)
    ensures Search(table, a) == Search(table, b)
  {
    TrimEmptyIffBlank(a);
    TrimEmptyIffBlank(b);
    LowerKeepsBlank(a);
    LowerKeepsBlank(b);
    FilterIgnoresCase(table, a, b);
  }

  lemma {:induction false} FilterIgnoresCase(table: seq<UserData>, a: string, b: string)
    requires Lower(a) == Lower(b)
    ensures Filter(table, a) == Filter(table, b)
  {
    if table != [] {
      FilterIgnoresCase(table[1..], a, b);
    }
  }
}
