/**
 * The list screen: which contacts `renderContacts` shows for the selected
 * category chip and the search box, what it shows when none are left, and
 * the category chips `renderFilterChips` offers.
 */
module Search {
  import opened Seqs
  import opened Text
  import opened Contacts

  /** The search test, given the already lower-cased query. The phone number is not lower-cased. */
  predicate MatchesQuery(c: Contact, query: string) {
    || Contains(Lower(c.name), query)
    || (c.company != "" && Contains(Lower(c.company), query))
    || (c.phone != "" && Contains(c.phone, query))
    || (c.email != "" && Contains(Lower(c.email), query))
  }

  function InCategory(category: string): Contact -> bool {
    (c: Contact) => c.category == category
  }

  function MatchTest(query: string): Contact -> bool {
    (c: Contact) => MatchesQuery(c, query)
  }

  /** The category step: only that category, unless the "all" chip is selected. */
  function ByCategory(cs: seq<Contact>, category: string): seq<Contact> {
    if category != AllCategories then Filter(cs, InCategory(category)) else cs
  }

  /** The search step: only matching contacts, unless the search box is empty. */
  function BySearch(cs: seq<Contact>, searchQuery: string): seq<Contact> {
    if searchQuery != "" then Filter(cs, MatchTest(Lower(searchQuery))) else cs
  }

  /** The contacts `renderContacts` lists: the category step, then the search step. */
  function FilterContacts(cs: seq<Contact>, category: string, searchQuery: string): seq<Contact> {
    BySearch(ByCategory(cs, category), searchQuery)
  }

  /** Whether a contact belongs on the list screen, both conditions at once. */
  predicate Shown(c: Contact, category: string, searchQuery: string) {
    && (category == AllCategories || c.category == category)
    && (searchQuery == "" || MatchesQuery(c, Lower(searchQuery)))
  }

  function ShownTest(category: string, searchQuery: string): Contact -> bool {
    (c: Contact) => Shown(c, category, searchQuery)
  }

  /**
   * The two steps together select exactly the contacts that pass both
   * conditions, in list order: one stable filter by `Shown`.
   */
  lemma FilterContactsSpec(cs: seq<Contact>, category: string, searchQuery: string)
    ensures FilterContacts(cs, category, searchQuery) == Filter(cs, ShownTest(category, searchQuery))
    ensures forall c :: c in FilterContacts(cs, category, searchQuery) <==> c in cs && Shown(c, category, searchQuery)
  {
    var shown := ShownTest(category, searchQuery);
    if category != AllCategories && searchQuery != "" {
      FilterFilter(cs, InCategory(category), MatchTest(Lower(searchQuery)), shown);
    } else if category != AllCategories {
      FilterCongruent(cs, InCategory(category), shown);
    } else if searchQuery != "" {
      FilterCongruent(cs, MatchTest(Lower(searchQuery)), shown);
    } else {
      FilterAll(cs, shown);
    }
    FilterMembers(cs, shown);
  }

  /** With the "all" chip and an empty search box, every contact is listed, in order. */
  lemma AllWithoutQuery(cs: seq<Contact>)
    ensures FilterContacts(cs, AllCategories, "") == cs
  {
  }

  /**
   * With a category chip and an empty search box, the list holds exactly the
   * contacts of that category, at ascending indices of the full list.
   */
  lemma CategoryOnly(cs: seq<Contact>, category: string)
    requires category != AllCategories
    ensures var r, idx := FilterContacts(cs, category, ""), Positions(cs, InCategory(category));
      && (forall c :: c in r <==> c in cs && c.category == category)
      && |r| == |idx|
      && (forall k :: 0 <= k < |idx| ==> idx[k] < |cs| && r[k] == cs[idx[k]])
      && (forall k, l :: 0 <= k < l < |idx| ==> idx[k] < idx[l])
      && (forall i :: 0 <= i < |cs| ==> (cs[i].category == category <==> i in idx))
  {
    FilterKeepsOrder(cs, InCategory(category));
    FilterMembers(cs, InCategory(category));
  }

  /**
   * With a search query, a contact of the selected category is listed
   * exactly when its lower-cased name, company or e-mail, or its raw phone
   * number, contains the lower-cased query.
   */
  lemma QueryFilter(cs: seq<Contact>, category: string, searchQuery: string, c: Contact)
    requires searchQuery != ""
    ensures c in FilterContacts(cs, category, searchQuery) <==>
      && c in ByCategory(cs, category)
      && var q := Lower(searchQuery);
         || Contains(Lower(c.name), q)
         || Contains(Lower(c.company), q)
         || Contains(c.phone, q)
         || Contains(Lower(c.email), q)
  {
    var q := Lower(searchQuery);
    FilterMembers(ByCategory(cs, category), MatchTest(q));
    assert |q| > 0;
    if c.company == "" {
      assert !Contains(Lower(c.company), q);
    }
    if c.phone == "" {
      assert !Contains(c.phone, q);
    }
    if c.email == "" {
      assert !Contains(Lower(c.email), q);
    }
  }

  /** Applying the same filter again changes nothing. */
  lemma FilterContactsIdempotent(cs: seq<Contact>, category: string, searchQuery: string)
    ensures FilterContacts(FilterContacts(cs, category, searchQuery), category, searchQuery)
         == FilterContacts(cs, category, searchQuery)
  {
    FilterContactsSpec(cs, category, searchQuery);
    FilterContactsSpec(FilterContacts(cs, category, searchQuery), category, searchQuery);
    FilterIdempotent(cs, ShownTest(category, searchQuery));
  }

  /** The query is compared without regard to case: typing it in capitals lists the same contacts. */
  lemma QueryCaseInsensitive(cs: seq<Contact>, category: string, searchQuery: string)
    ensures FilterContacts(cs, category, Lower(searchQuery)) == FilterContacts(cs, category, searchQuery)
  {
    LowerIdempotent(searchQuery);
  }

  /**
   * A contact whose name, company or e-mail contains the query, in whatever
   * case, passes the search step.
   */
  lemma FoundInAnyCase(c: Contact, searchQuery: string)
    requires searchQuery != ""
    requires Contains(c.name, searchQuery) || Contains(c.company, searchQuery) || Contains(c.email, searchQuery)
    ensures MatchesQuery(c, Lower(searchQuery))
  {
    if Contains(c.name, searchQuery) {
      ContainsLower(c.name, searchQuery);
    } else if Contains(c.company, searchQuery) {
      ContainsLower(c.company, searchQuery);
      assert c.company != "";
    } else {
      ContainsLower(c.email, searchQuery);
      assert c.email != "";
    }
  }

  // ------------------------------------------------------------ empty state

  /** What the list area shows: the cards, or the empty-state message. */
  datatype View = EmptyState(noMatches: bool) | Cards(shown: seq<Contact>)

  /**
   * The list area: the filtered cards, or, when none are left, the "no
   * matching contacts" message if a query was typed and the "no contacts
   * yet" message otherwise.
   */
  function RenderContacts(cs: seq<Contact>, category: string, searchQuery: string): (v: View)
    ensures v.Cards? <==> exists c :: c in cs && Shown(c, category, searchQuery)
    ensures v.Cards? ==> forall c :: c in v.shown <==> c in cs && Shown(c, category, searchQuery)
    ensures v.Cards? ==> v.shown == Filter(cs, ShownTest(category, searchQuery))
    ensures v.EmptyState? ==> v.noMatches == (searchQuery != "")
  {
    FilterContactsSpec(cs, category, searchQuery);
    var filtered := FilterContacts(cs, category, searchQuery);
    if filtered == [] then EmptyState(searchQuery != "")
    else
      assert filtered[0] in filtered;
      Cards(filtered)
  }

  // ------------------------------------------------------------ filter chips

  /** The category of each contact, in list order. */
  function CategoriesOf(cs: seq<Contact>): seq<string> {
    Map(cs, (c: Contact) => c.category)
  }

  predicate NonEmpty(cat: string) {
    cat != ""
  }

  /** `contacts.map(c => c.category).filter(Boolean)`. */
  function CategoryValues(cs: seq<Contact>): seq<string> {
    Filter(CategoriesOf(cs), NonEmpty)
  }

  /** `renderFilterChips`: the "all" chip, then each category once, as a `Set` yields them. */
  function FilterChips(cs: seq<Contact>): (chips: seq<string>)
    ensures |chips| >= 1 && chips[0] == AllCategories
  {
    [AllCategories] + Distinct(CategoryValues(cs))
  }

  /**
   * After the "all" chip come the non-empty categories of the contacts, each
   * exactly once, ordered by the first contact that carries them.
   */
  lemma FilterChipsSpec(cs: seq<Contact>)
    ensures var chips := FilterChips(cs);
      && NoDuplicates(chips[1..])
      && (forall cat :: cat in chips[1..] <==> cat != "" && exists c :: c in cs && c.category == cat)
      && (forall i, j :: 1 <= i < j < |chips| ==>
            chips[i] in CategoriesOf(cs) && chips[j] in CategoriesOf(cs) &&
            IndexOf(CategoriesOf(cs), chips[i]) < IndexOf(CategoriesOf(cs), chips[j]))
  {
    var chips, vals, all := FilterChips(cs), CategoryValues(cs), CategoriesOf(cs);
    DistinctSpec(vals);
    FilterMembers(all, NonEmpty);
    assert chips[1..] == Distinct(vals);
    forall cat ensures cat in all <==> exists c :: c in cs && c.category == cat {
      if cat in all {
        var k :| 0 <= k < |all| && all[k] == cat;
        assert cs[k] in cs;
      }
      if c :| c in cs && c.category == cat {
        var k :| 0 <= k < |cs| && cs[k] == c;
        assert all[k] == cat;
      }
    }
    forall i, j | 1 <= i < j < |chips|
      ensures chips[i] in all && chips[j] in all && IndexOf(all, chips[i]) < IndexOf(all, chips[j])
    {
      assert chips[i] == Distinct(vals)[i - 1] && chips[j] == Distinct(vals)[j - 1];
      IndexOfFilter(all, NonEmpty, chips[i], chips[j]);
    }
  }

  /**
   * The chip list is fixed by that description: any list with the "all" chip
   * first, then the distinct non-empty categories in first-seen order, is it.
   */
  lemma FilterChipsUnique(cs: seq<Contact>, chips: seq<string>)
    requires |chips| >= 1 && chips[0] == AllCategories
    requires InFirstSeenOrder(CategoryValues(cs), chips[1..])
    requires forall cat :: cat in chips[1..] <==> cat in CategoryValues(cs)
    ensures chips == FilterChips(cs)
  {
    DistinctUnique(CategoryValues(cs), chips[1..]);
  }

  /**
   * The "all" chip is not removed from the category set: a contact filed
   * under the literal category "全部" makes that chip appear a second time.
   */
  lemma AllChipRepeats(cs: seq<Contact>, c: Contact)
    requires c in cs && c.category == AllCategories
    ensures AllCategories in FilterChips(cs)[1..]
  {
    FilterChipsSpec(cs);
  }
}
