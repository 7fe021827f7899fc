/**
 * Reading categories.  Creating a reading recommendation raises an event
 * whose handler makes sure the recommendation's category exists: it trims
 * the name, looks for a category with the same name ignoring case, and adds
 * one only when there is none.
 */
module ReadingCategories {
  import opened Common

  /** The existence check: names compared after lower-casing both sides. */
  predicate SameName(a: string, b: string)
  {
    Lower(a) == Lower(b)
  }

  /** Some stored category has `name`, ignoring case. */
  predicate HasCategory(names: seq<string>, name: string)
  {
    exists i :: 0 <= i < |names| && SameName(names[i], name)
  }

  /** No two stored categories have the same name ignoring case. */
  predicate NoCaseDuplicates(names: seq<string>)
  {
    forall i, j :: 0 <= i < j < |names| ==> !SameName(names[i], names[j])
  }

  /** The category table after the handler ran for a recommendation whose category is `category`. */
  function AfterCreated(names: seq<string>, category: string): (r: seq<string>)
    ensures |names| <= |r| <= |names| + 1 && r[..|names|] == names
    ensures |r| == |names| + 1 ==> r[|names|] == Trim(category)
  {
    var name := Trim(category);
    if HasCategory(names, name) then names else names + [name]
  }

  /** The handler leaves a category with the trimmed name, and adds at most that one row. */
  lemma AfterCreatedHasCategory(names: seq<string>, category: string)
    ensures HasCategory(AfterCreated(names, category), Trim(category))
    ensures AfterCreated(names, category) == names <==> HasCategory(names, Trim(category))
    ensures !HasCategory(names, Trim(category)) ==> AfterCreated(names, category) == names + [Trim(category)]
  {
    var name := Trim(category);
    if !HasCategory(names, name) {
      var r := names + [name];
      assert r[|names|] == name && SameName(name, name);
      assert |r| != |names|;
    }
  }

  /** Running the handler twice for the same category leaves what one run left. */
  lemma AfterCreatedIdempotent(names: seq<string>, category: string)
    ensures AfterCreated(AfterCreated(names, category), category) == AfterCreated(names, category)
  {
    AfterCreatedHasCategory(names, category);
  }

  /** A table without case-insensitive duplicates keeps that property. */
  lemma AfterCreatedKeepsNoCaseDuplicates(names: seq<string>, category: string)
    requires NoCaseDuplicates(names)
    ensures NoCaseDuplicates(AfterCreated(names, category))
  {
    var name := Trim(category);
    if !HasCategory(names, name) {
      var r := names + [name];
      forall i, j | 0 <= i < j < |r|
        ensures !SameName(r[i], r[j])
      {
        if j < |names| {
          assert r[i] == names[i] && r[j] == names[j];
        } else {
          assert r[i] == names[i] && r[j] == name;
        }
      }
    }
  }

  /** Two recommendations whose categories differ only in case and surrounding white space yield one category. */
  lemma CaseVariantsShareOneCategory(names: seq<string>, c1: string, c2: string)
    requires SameName(Trim(c1), Trim(c2))
    ensures AfterCreated(AfterCreated(names, c1), c2) == AfterCreated(names, c1)
  {
    AfterCreatedHasCategory(names, c1);
    var after := AfterCreated(names, c1);
    var i :| 0 <= i < |after| && SameName(after[i], Trim(c1));
    assert SameName(after[i], Trim(c2));
  }

  /** The `mt_reading_category` table. */
  class CategoryStore {
    var names: seq<string>

    constructor (names: seq<string>)
      ensures this.names == names
    {
      this.names := names;
    }

    /** `ReadingRecommendationCreatedEventHandler.Handle` for a recommendation whose category is `category`. */
    method HandleRecommendationCreated(category: string)
      modifies this
      ensures names == AfterCreated(old(names), category)
    {
      var categoryName := Trim(category);
      var found := HasCategory(names, categoryName);
      if !found {
        names := names + [categoryName];
      }
    }
  }
}
