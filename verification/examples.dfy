/** Concrete searches over the product table and small pages, worked through the model. */
module SearchExamples {
  import opened Text
  import opened HtmlEscape
  import opened UriComponent
  import opened Catalog
  import opened Search

  function RoseFields(): Fields { Fields("Rose Plant", "outdoor", "Outdoor Plant") }

  /** "rose" matches the rose plant by its name. */
  lemma RoseMatches()
    ensures Matches("rose", RoseFields())
  {
    assert Lower("rose") == "rose";
    assert Lower("Rose Plant") == "rose plant";
    assert StartsWith("rose plant", "rose");
  }

  /** A lower-case query letter that the text has in neither case rules the text out. */
  lemma LacksLetter(text: string, query: string, k: nat, upper: char)
    requires IsLowerCase(query) && k < |query| && IsUpper(upper) && ToLower(upper) == query[k]
    requires forall j :: 0 <= j < |text| ==> text[j] != query[k] && text[j] != upper
    ensures !Contains(Lower(text), Lower(query))
  {
    LowerIsLowerCase(query);
    assert query[k] !in Lower(text) by {
      forall j | 0 <= j < |text| ensures Lower(text)[j] != query[k] {
      }
    }
    if Contains(Lower(text), query) {
      ContainsChars(Lower(text), query, k);
    }
  }

  /** "zzz" matches none of the rose plant's texts: none of them holds a 'z' in either case. */
  lemma ZzzMatchesNothing()
    ensures !Matches("zzz", RoseFields())
  {
    LacksLetter("Rose Plant", "zzz", 0, 'Z');
    LacksLetter("outdoor", "zzz", 0, 'Z');
    LacksLetter("Outdoor Plant", "zzz", 0, 'Z');
  }

  /** The redirect for "rose" carries the query unchanged. */
  lemma RoseRedirect()
    ensures RedirectTarget("rose") == "shop.html?search=rose"
  {
    EncodeIdentity("rose");
  }

  /** A query that looks like markup is quoted as text in the notice. */
  lemma MarkupQueryIsEscaped()
    ensures EscapeHtml("<b>") == "&lt;b&gt;"
  {
    EscapeHtmlCons('>', "");
    EscapeHtmlCons('b', ">");
    EscapeHtmlCons('<', "b>");
  }
}

/** The home-page search for "succulent", worked through the product table. */
module SucculentExample {
  import opened Text
  import opened SearchExamples
  import opened Filtering
  import opened Catalog

  lemma OccursPair(hay: string, needle: string, i: int, k: nat)
    requires OccursAt(hay, needle, i) && k + 1 < |needle|
    ensures hay[i + k] == needle[k] && hay[i + k + 1] == needle[k + 1]
  {
    assert hay[i..i + |needle|][k] == hay[i + k];
    assert hay[i..i + |needle|][k + 1] == hay[i + k + 1];
  }

  /** Two adjacent lower-case query letters that never stand side by side in the text, in either case, rule the text out. */
  lemma LacksPair(text: string, query: string, k: nat, upper0: char, upper1: char)
    requires IsLowerCase(query) && k + 1 < |query|
    requires IsUpper(upper0) && ToLower(upper0) == query[k] && IsUpper(upper1) && ToLower(upper1) == query[k + 1]
    requires forall j :: 0 < j < |text| ==>
      !((text[j - 1] == query[k] || text[j - 1] == upper0) && (text[j] == query[k + 1] || text[j] == upper1))
    ensures !Contains(Lower(text), Lower(query))
  {
    LowerIsLowerCase(query);
    var h := Lower(text);
    if Contains(h, query) {
      ContainsOccurs(h, query);
      var i :| OccursAt(h, query, i);
      OccursPair(h, query, i, k);
      LowerMatch(text[i + k], query[k], upper0);
      LowerMatch(text[i + k + 1], query[k + 1], upper1);
    }
  }

  /** A character that lower-cases to a letter is that letter or its upper-case partner. */
  lemma LowerMatch(x: char, lower: char, upper: char)
    requires IsUpper(upper) && ToLower(upper) == lower && ToLower(x) == lower
    ensures x == lower || x == upper
  {
  }

  lemma Hit(f: Fields)
    requires f.alt == "Succulent"
    ensures Matches("succulent", f)
  {
    assert Lower("Succulent") == "succulent";
    ContainsTrivial("succulent");
  }

  /** A product whose category and alt text hold no 'c' matches "succulent" only by its name. */
  lemma MissByName(f: Fields, k: nat, upper: char)
    requires f.category in {"indoor", "outdoor", "herbs", "seeds"}
    requires f.alt in {"Indoor Plant", "Outdoor Plant", "Herb", "Seeds"}
    requires k < 9 && IsUpper(upper) && ToLower(upper) == "succulent"[k]
    requires forall j :: 0 <= j < |f.name| ==> f.name[j] != "succulent"[k] && f.name[j] != upper
    ensures !Matches("succulent", f)
  {
    LacksLetter(f.category, "succulent", 2, 'C');
    LacksLetter(f.alt, "succulent", 2, 'C');
    LacksLetter(f.name, "succulent", k, upper);
  }

  /** No two neighbours of `text` are `a` then `b`, each in either case. */
  ghost predicate NoPair(text: string, a: char, upperA: char, b: char, upperB: char) {
    forall j :: 0 < j < |text| ==> !((text[j - 1] == a || text[j - 1] == upperA) && (text[j] == b || text[j] == upperB))
  }

  lemma NoPairAppend(front: string, back: string, a: char, upperA: char, b: char, upperB: char)
    requires NoPair(front, a, upperA, b, upperB) && NoPair(back, a, upperA, b, upperB)
    requires front != [] && back != []
    requires !((front[|front| - 1] == a || front[|front| - 1] == upperA) && (back[0] == b || back[0] == upperB))
    ensures NoPair(front + back, a, upperA, b, upperB)
  {
    var text := front + back;
    forall j | 0 < j < |text|
      ensures !((text[j - 1] == a || text[j - 1] == upperA) && (text[j] == b || text[j] == upperB))
    {
      if j > |front| {
        assert text[j - 1] == back[j - 1 - |front|] && text[j] == back[j - |front|];
      } else if j == |front| {
        assert text[j - 1] == front[|front| - 1] && text[j] == back[0];
      }
    }
  }

  /** "Rubber Plant (Ficus Elastica)" has a 'c' but never two in a row. */
  lemma RubberPlantMiss()
    ensures !Contains(Lower("Rubber Plant (Ficus Elastica)"), Lower("succulent"))
  {
    assert NoPair("Rubber Plant (", 'c', 'C', 'c', 'C');
    assert NoPair("Ficus Elastica)", 'c', 'C', 'c', 'C');
    NoPairAppend("Rubber Plant (", "Ficus Elastica)", 'c', 'C', 'c', 'C');
    assert "Rubber Plant (" + "Ficus Elastica)" == "Rubber Plant (Ficus Elastica)";
    LacksPair("Rubber Plant (Ficus Elastica)", "succulent", 2, 'C', 'C');
  }

  lemma Miss0()
    ensures !Matches("succulent", ProductFields(ProductData[0]))
  {
    var f := ProductFields(ProductData[0]);
    LacksLetter(f.category, "succulent", 2, 'C');
    LacksLetter(f.alt, "succulent", 2, 'C');
    RubberPlantMiss();
  }

  lemma Miss1()
    ensures !Matches("succulent", ProductFields(ProductData[1]))
  {
    MissByName(ProductFields(ProductData[1]), 1, 'U');
  }

  lemma Miss3()
    ensures !Matches("succulent", ProductFields(ProductData[3]))
  {
    MissByName(ProductFields(ProductData[3]), 1, 'U');
  }

  lemma Miss4()
    ensures !Matches("succulent", ProductFields(ProductData[4]))
  {
    MissByName(ProductFields(ProductData[4]), 1, 'U');
  }

  lemma Miss5()
    ensures !Matches("succulent", ProductFields(ProductData[5]))
  {
    MissByName(ProductFields(ProductData[5]), 0, 'S');
  }

  lemma Miss6()
    ensures !Matches("succulent", ProductFields(ProductData[6]))
  {
    MissByName(ProductFields(ProductData[6]), 1, 'U');
  }

  lemma Miss7()
    ensures !Matches("succulent", ProductFields(ProductData[7]))
  {
    MissByName(ProductFields(ProductData[7]), 1, 'U');
  }

  lemma Miss8()
    ensures !Matches("succulent", ProductFields(ProductData[8]))
  {
    MissByName(ProductFields(ProductData[8]), 0, 'S');
  }

  lemma Miss9()
    ensures !Matches("succulent", ProductFields(ProductData[9]))
  {
    MissByName(ProductFields(ProductData[9]), 2, 'C');
  }

  lemma Miss11()
    ensures !Matches("succulent", ProductFields(ProductData[11]))
  {
    MissByName(ProductFields(ProductData[11]), 0, 'S');
  }

  lemma Miss12()
    ensures !Matches("succulent", ProductFields(ProductData[12]))
  {
    MissByName(ProductFields(ProductData[12]), 7, 'N');
  }

  lemma Miss13()
    ensures !Matches("succulent", ProductFields(ProductData[13]))
  {
    MissByName(ProductFields(ProductData[13]), 1, 'U');
  }

  lemma Miss14()
    ensures !Matches("succulent", ProductFields(ProductData[14]))
  {
    MissByName(ProductFields(ProductData[14]), 0, 'S');
  }

  /** Of the fifteen records exactly two match "succulent": the echeveria and the aloe vera. */
  lemma SucculentSearch()
    ensures Select("succulent", ProductData, ProductFields) == [ProductData[2], ProductData[10]]
  {
    var keep := Matcher("succulent", ProductFields);
    var xs := ProductData;
    HeadPart(keep, xs);
    MiddlePart(keep, xs);
    LastPart(keep, xs);
    assert xs[0..] == xs;
  }

  lemma HeadPart(keep: Product -> bool, xs: seq<Product>)
    requires keep == Matcher("succulent", ProductFields) && xs == ProductData
    ensures Filter(keep, xs[0..]) == Filter(keep, xs[2..])
  {
    Miss0();
    Miss1();
    FilterFrom(keep, xs, 1);
    FilterFrom(keep, xs, 0);
  }

  lemma LastPart(keep: Product -> bool, xs: seq<Product>)
    requires keep == Matcher("succulent", ProductFields) && xs == ProductData
    ensures Filter(keep, xs[10..]) == [xs[10]]
  {
    Hit(ProductFields(xs[10]));
    Miss11();
    Miss12();
    Miss13();
    Miss14();
    FilterFrom(keep, xs, 14);
    FilterFrom(keep, xs, 13);
    FilterFrom(keep, xs, 12);
    FilterFrom(keep, xs, 11);
    FilterFrom(keep, xs, 10);
  }

  lemma MiddlePart(keep: Product -> bool, xs: seq<Product>)
    requires keep == Matcher("succulent", ProductFields) && xs == ProductData
    ensures Filter(keep, xs[2..]) == [xs[2]] + Filter(keep, xs[10..])
  {
    Hit(ProductFields(xs[2]));
    Miss3();
    Miss4();
    Miss5();
    Miss6();
    Miss7();
    Miss8();
    Miss9();
    FilterFrom(keep, xs, 9);
    FilterFrom(keep, xs, 8);
    FilterFrom(keep, xs, 7);
    FilterFrom(keep, xs, 6);
    FilterFrom(keep, xs, 5);
    FilterFrom(keep, xs, 4);
    FilterFrom(keep, xs, 3);
    FilterFrom(keep, xs, 2);
  }
}
