/** The redirect table as it ships, and what the lookup and the search do on it. */
module Links {
  import opened Types
  import opened Text
  import opened Resolver

  /** The static table, in its source order. */
  const Data: seq<UserData> := [
    UserData("alfreinsco", "https://alfreinsco.fun", "Pertofolio Marthin"),
    UserData("marthin", "https://alfreinsco.fun", "Halaman Portofolio Marthin"),
    UserData(
      "penjangkauan-kkr-kampus-2025",
      "https://docs.google.com/forms/d/e/1FAIpQLSf70xwp4CQ2tS5CV3pk1NPgw-wF_HzImvTLFOGhqMhZekDknQ/viewform",
      "Halaman Penjangkauan KKR Kampus 2025")
  ]

  /** The table holds three records, in this order. */
  lemma DataShape()
    ensures |Data| == 3
    ensures Data[0].nama == "alfreinsco" && Data[1].nama == "marthin"
    ensures Data[2].nama == "penjangkauan-kkr-kampus-2025"
  {
  }

  /** The names are pairwise distinct even after lowering. */
  lemma DataKeysDistinct()
    ensures DistinctKeys(Data)
  {
    NamesLowered();
  }

  /** "marthin" in any letter case resolves to the second record, which
      leads to the same link as "alfreinsco". */
  lemma ResolveMarthin(key: string)
    requires Lower(key) == "marthin"
    ensures FindExact(Data, key) == Some(Data[1])
    ensures FindExact(Data, key).value.link == "https://alfreinsco.fun"
    ensures FindExact(Data, "alfreinsco") == Some(Data[0]) && Data[0].link == Data[1].link
  {
    DataKeysDistinct();
    NamesLowered();
    FindExactUnique(Data, 1, key);
    FindExactUnique(Data, 0, "alfreinsco");
  }

  /** An unknown name resolves to nothing. */
  lemma ResolveUnknown()
    ensures FindExact(Data, "unknown-user-xyz") == None
  {
    NamesLowered();
    var key := "unknown-user-xyz";
    assert Lower(key) == key by {
      assert forall k :: 0 <= k < |key| ==> !IsUpper(key[k]);
    }
    FindExactFirstMatch(Data, key);
  }

  /** The text fields of the table, one literal each. */
  lemma DataFields()
    ensures Data[0].nama == "alfreinsco" && Data[0].deskripsi == "Pertofolio Marthin"
    ensures Data[1].nama == "marthin" && Data[1].deskripsi == "Halaman Portofolio Marthin"
    ensures Data[2].nama == "penjangkauan-kkr-kampus-2025"
    ensures Data[2].deskripsi == "Halaman Penjangkauan KKR Kampus 2025"
  {
  }

  // The letters that rule records out of the sample searches, on the
  // literals themselves: no 'k' in either case in the first two records,
  // no 't' in the third.

  lemma NoKInFirst()
    ensures 'k' !in "alfreinsco" && 'K' !in "alfreinsco"
    ensures 'k' !in "Pertofolio Marthin" && 'K' !in "Pertofolio Marthin"
  {
  }

  lemma NoKInSecond()
    ensures 'k' !in "marthin" && 'K' !in "marthin"
    ensures 'k' !in "Halaman Portofolio Marthin" && 'K' !in "Halaman Portofolio Marthin"
  {
  }

  lemma NoTInThirdName()
    ensures 't' !in "penjangkauan-kkr-kampus-2025" && 'T' !in "penjangkauan-kkr-kampus-2025"
  {
  }

  lemma NoTInThirdDescription()
    ensures 't' !in "Halaman Penjangkauan KKR Kampus 2025"
    ensures 'T' !in "Halaman Penjangkauan KKR Kampus 2025"
  {
  }

  /** The names are already lower-case. */
  lemma NamesLowered()
    ensures Lower(Data[0].nama) == "alfreinsco"
    ensures Lower(Data[1].nama) == "marthin"
    ensures Lower(Data[2].nama) == "penjangkauan-kkr-kampus-2025"
  {
    DataFields();
    LowerFixesLowercase("alfreinsco");
    LowerFixesLowercase("marthin");
    LowerFixesLowercase("penjangkauan-kkr-kampus-2025");
  }

  /** A query of lower-case letters is not blank and lowers to itself. */
  lemma PlainQuery(q: string)
    requires |q| > 0 && forall k :: 0 <= k < |q| ==> IsLower(q[k])
    ensures Lower(q) == q && Trim(q) != ""
  {
    assert forall k :: 0 <= k < |q| ==> Lower(q)[k] == q[k];
    TrimEmptyIffBlank(q);
    assert !IsWhitespace(q[0]);
  }

  /** The pattern occurs in `s` at a known position, so `s` includes it. */
  lemma IncludesAt(s: string, t: string, i: int)
    requires OccursAt(s, t, i)
    ensures Includes(s, t)
  {
    IncludesIffOccurs(s, t);
  }

  /** The filter over a three-record table, record by record. */
  lemma FilterOfThree(a: UserData, b: UserData, c: UserData, q: string)
    ensures Filter([a, b, c], q) ==
      (if QueryMatches(a, q) then [a] else []) +
      (if QueryMatches(b, q) then [b] else []) +
      (if QueryMatches(c, q) then [c] else [])
  {
    assert [a, b, c][1..] == [b, c];
    assert [b, c][1..] == [c];
    assert [c][1..] == [];
    assert Filter([c], q) == if QueryMatches(c, q) then [c] else [];
    assert Filter([b, c], q) == (if QueryMatches(b, q) then [b] else []) + Filter([c], q);
  }

  /** A record matches no query holding a letter that appears in neither its
      lowered name nor its lowered description. */
  lemma MissingLetter(u: UserData, q: string, c: char)
    requires c in Lower(q) && c !in Lower(u.nama) && c !in Lower(u.deskripsi)
    ensures !QueryMatches(u, q)
  {
    NotIncludedWithout(Lower(u.nama), Lower(q), c);
    NotIncludedWithout(Lower(u.deskripsi), Lower(q), c);
  }

  /** A record that holds neither 'k' nor 'K' does not match "kkr". */
  lemma NoKNoKkr(u: UserData)
    requires 'k' !in u.nama && 'K' !in u.nama && 'k' !in u.deskripsi && 'K' !in u.deskripsi
    ensures !QueryMatches(u, "kkr")
  {
    assert 'k' in Lower("kkr") by { PlainQuery("kkr"); }
    AbsentAfterLower(u.nama, 'k');
    AbsentAfterLower(u.deskripsi, 'k');
    MissingLetter(u, "kkr", 'k');
  }

  // Which records the queries "kkr" and "marthin" match, one record per
  // lemma: each fact is cheap alone, but several together make the solver
  // unfold the string functions over the literals far too often.

  lemma KkrMissesFirst()
    ensures !QueryMatches(Data[0], "kkr")
  {
    DataFields();
    NoKInFirst();
    NoKNoKkr(Data[0]);
  }

  lemma KkrMissesSecond()
    ensures !QueryMatches(Data[1], "kkr")
  {
    DataFields();
    NoKInSecond();
    NoKNoKkr(Data[1]);
  }

  lemma KkrHitsThird()
    ensures QueryMatches(Data[2], "kkr")
  {
    assert Lower("kkr") == "kkr" by { PlainQuery("kkr"); }
    assert Lower(Data[2].nama) == "penjangkauan-kkr-kampus-2025" by { NamesLowered(); }
    IncludesAt(Lower(Data[2].nama), "kkr", 13);
  }

  lemma LowerFirstDescription()
    ensures Lower("Pertofolio Marthin") == "pertofolio marthin"
  {
  }

  lemma MarthinHitsFirst()
    ensures QueryMatches(Data[0], "marthin")
  {
    assert Lower("marthin") == "marthin" by { PlainQuery("marthin"); }
    assert Lower(Data[0].deskripsi) == "pertofolio marthin" by {
      DataFields();
      LowerFirstDescription();
    }
    IncludesAt(Lower(Data[0].deskripsi), "marthin", 11);
  }

  lemma MarthinHitsSecond()
    ensures QueryMatches(Data[1], "marthin")
  {
    assert Lower("marthin") == "marthin" by { PlainQuery("marthin"); }
    assert Lower(Data[1].nama) == "marthin" by { NamesLowered(); }
    IncludesAt(Lower(Data[1].nama), "marthin", 0);
  }

  /** "marthin" contains 't', which neither the third name nor its
      description has in either case. */
  lemma MarthinMissesThird()
    ensures !QueryMatches(Data[2], "marthin")
  {
    assert 't' in Lower("marthin") by { PlainQuery("marthin"); }
    DataFields();
    NoTInThirdName();
    NoTInThirdDescription();
    AbsentAfterLower(Data[2].nama, 't');
    AbsentAfterLower(Data[2].deskripsi, 't');
    MissingLetter(Data[2], "marthin", 't');
  }

  lemma FilterKkr()
    ensures Filter(Data, "kkr") == [Data[2]]
  {
    KkrMissesFirst();
    KkrMissesSecond();
    KkrHitsThird();
    FilterOfThree(Data[0], Data[1], Data[2], "kkr");
  }

  /** Searching "kkr" finds only the third record (by its name and its description). */
  lemma SearchKkr()
    ensures Search(Data, "kkr") == [Data[2]]
  {
    assert Search(Data, "kkr") == Filter(Data, "kkr") by { PlainQuery("kkr"); }
    FilterKkr();
  }

  lemma FilterMarthin()
    ensures Filter(Data, "marthin") == [Data[0], Data[1]]
  {
    MarthinHitsFirst();
    MarthinHitsSecond();
    MarthinMissesThird();
    FilterOfThree(Data[0], Data[1], Data[2], "marthin");
  }

  /** Searching "marthin" finds the first two records, in table order: the
      first by its description, the second by its name. */
  lemma SearchMarthin()
    ensures Search(Data, "marthin") == [Data[0], Data[1]]
  {
    assert Search(Data, "marthin") == Filter(Data, "marthin") by { PlainQuery("marthin"); }
    FilterMarthin();
  }
}
