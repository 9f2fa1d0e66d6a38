/**
 * Target selection in `check_stock`: which page items end up in the alert, and
 * with what name and quantity.
 */
module Selection {
  import Quantity
  import Names
  import Text

  /** One `.seed-item` container as read from the page: the text of its `h2`
      heading and the text of its stock paragraph. */
  datatype RawItem = RawItem(heading: string, stockText: string)

  /** A line of the alert: a cleaned seed name and its parsed quantity. */
  datatype Entry = Entry(name: string, quantity: nat)

  /** The seeds the bot watches for (`TARGET_SEEDS`). */
  const TargetSeeds: seq<string> := ["Beanstalk", "Burning Bud", "Giant Pinecone", "Sugar Apple", "Ember Lily"]

  /** The cleaned name and parsed quantity of an item. */
  function EntryOf(x: RawItem): Entry {
    Entry(Names.CleanName(x.heading), Quantity.ParseQuantity(x.stockText))
  }

  /** An item earns an alert line: its cleaned name is, exactly and case-sensitively,
      one of the targets, and it has stock. */
  predicate Qualifies(x: RawItem, targets: seq<string>) {
    EntryOf(x).name in targets && EntryOf(x).quantity > 0
  }

  /** The entries of the qualifying items, in page order, one per item. */
  function Select(items: seq<RawItem>, targets: seq<string>): (r: seq<Entry>)
    ensures |r| <= |items|
    ensures forall e :: e in r ==> e.name in targets && e.quantity > 0
  {
    if items == [] then []
    else (if Qualifies(items[0], targets) then [EntryOf(items[0])] else []) + Select(items[1..], targets)
  }

  /** Every qualifying item of the page has its entry selected. */
  lemma {:induction false} SelectComplete(items: seq<RawItem>, targets: seq<string>)
    ensures forall x :: x in items && Qualifies(x, targets) ==> EntryOf(x) in Select(items, targets)
  {
    if items != [] {
      SelectComplete(items[1..], targets);
      forall x | x in items && Qualifies(x, targets)
        ensures EntryOf(x) in Select(items, targets)
      {
        if x != items[0] {
          assert x in items[1..];
        }
      }
    }
  }

  /** Every selected entry comes from a qualifying item of the page. */
  lemma {:induction false} SelectSound(items: seq<RawItem>, targets: seq<string>)
    ensures forall e :: e in Select(items, targets) ==>
      exists x :: x in items && Qualifies(x, targets) && EntryOf(x) == e
  {
    if items != [] {
      SelectSound(items[1..], targets);
      forall e | e in Select(items, targets)
        ensures exists x :: x in items && Qualifies(x, targets) && EntryOf(x) == e
      {
        if e !in Select(items[1..], targets) {
          assert Qualifies(items[0], targets) && e == EntryOf(items[0]);
        } else {
          var x :| x in items[1..] && Qualifies(x, targets) && EntryOf(x) == e;
          assert x in items;
        }
      }
    }
  }

  /** The selection is empty exactly when no item qualifies. */
  lemma SelectEmptyIff(items: seq<RawItem>, targets: seq<string>)
    ensures Select(items, targets) == [] <==> forall x :: x in items ==> !Qualifies(x, targets)
  {
    SelectSound(items, targets);
    SelectComplete(items, targets);
    if Select(items, targets) != [] {
      assert Select(items, targets)[0] in Select(items, targets);
    }
  }

  /** Selection works item by item: the selection of a concatenation is the
      concatenation of the selections, so page order is kept. */
  lemma {:induction false} SelectAppend(a: seq<RawItem>, b: seq<RawItem>, targets: seq<string>)
    ensures Select(a + b, targets) == Select(a, targets) + Select(b, targets)
  {
    if a == [] {
      assert a + b == b;
    } else {
      assert (a + b)[0] == a[0];
      assert (a + b)[1..] == a[1..] + b;
      SelectAppend(a[1..], b, targets);
    }
  }

  /** A single item contributes its entry exactly when it qualifies. */
  lemma SelectSingle(x: RawItem, targets: seq<string>)
    ensures Select([x], targets) == if Qualifies(x, targets) then [EntryOf(x)] else []
  {
    assert [x][1..] == [];
  }

  /** Appending one item to the page appends its entry exactly when it qualifies. */
  lemma SelectSnoc(items: seq<RawItem>, x: RawItem, targets: seq<string>)
    ensures Select(items + [x], targets)
      == Select(items, targets) + (if Qualifies(x, targets) then [EntryOf(x)] else [])
  {
    SelectAppend(items, [x], targets);
    SelectSingle(x, targets);
  }

  /** Nothing is deduplicated: an item that appears twice contributes twice, so a
      qualifying one gives two equal entries. */
  lemma NoDeduplication(x: RawItem, targets: seq<string>)
    ensures Select([x, x], targets) == Select([x], targets) + Select([x], targets)
    ensures Qualifies(x, targets) ==> Select([x, x], targets) == [EntryOf(x), EntryOf(x)]
  {
    var one := Select([x], targets);
    assert one == (if Qualifies(x, targets) then [EntryOf(x)] else []) by { SelectSingle(x, targets); }
    assert Select([x, x], targets) == one + one by {
      assert [x, x][1..] == [x];
    }
  }

  /** The target comparison is case-sensitive: a lower-case heading is not
      selected whatever its stock. */
  lemma CaseSensitiveMatch(q: nat)
    ensures Select([RawItem("beanstalk Seed", "Stock: " + Text.NatToString(q))], TargetSeeds) == []
  {
    var x := RawItem("beanstalk Seed", "Stock: " + Text.NatToString(q));
    assert !Qualifies(x, TargetSeeds) by {
      Names.CleanLowerBeanstalk();
      assert "beanstalk" !in TargetSeeds;
    }
    SelectSingle(x, TargetSeeds);
  }
}
