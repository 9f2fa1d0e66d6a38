/**
 * One run of `check_stock`: read the seed items of the page, build the alert from
 * the qualifying ones, and hand it to the mailer, or give up on the first error.
 * The browser is reduced to what it reports: whether it launched, whether the page
 * and its item list loaded, and, per item, the two texts or the error raised.
 */
module StockCheck {
  import opened Wrappers
  import opened Text
  import opened Selection
  import opened AlertBody
  import opened Notify
  import opened Quantity
  import opened Names

  /** The two `except` clauses: Playwright's `TimeoutError`, or any other exception. */
  datatype Fault = Timeout | Unexpected

  /** Reading one item's heading and stock texts: both texts, or the exception raised. */
  datatype ItemRead = ReadOk(item: RawItem) | ReadFailed(fault: Fault)

  /** What the browser session yields. `LaunchFailed`: no browser was started.
      `LoadFailed`: opening the page, navigating or waiting for the items raised.
      `Loaded`: the item containers, in page order. */
  datatype Page =
    | LaunchFailed(fault: Fault)
    | LoadFailed(fault: Fault)
    | Loaded(containers: seq<ItemRead>)

  /** How a run ends: abandoned by an exception, with nothing to report, or with an
      alert handed to `send_email_notification`. */
  datatype Outcome = Aborted(fault: Fault) | NoAlert | Alert(subject: string, body: string)

  /** The item texts of a page if every read succeeded, else the first error. */
  function Collect(containers: seq<ItemRead>): (r: Result<seq<RawItem>, Fault>)
    ensures r.Success? ==> |r.value| == |containers|
  {
    if containers == [] then Success([])
    else match containers[0]
      case ReadFailed(f) => Failure(f)
      case ReadOk(x) =>
        match Collect(containers[1..])
        case Failure(f) => Failure(f)
        case Success(xs) => Success([x] + xs)
  }

  /** Collecting succeeds exactly when every read did, and then yields the texts in
      page order; otherwise it reports the error of the first failed read. */
  lemma {:induction false} CollectSpec(containers: seq<ItemRead>)
    ensures Collect(containers).Success? <==> forall j :: 0 <= j < |containers| ==> containers[j].ReadOk?
    ensures Collect(containers).Success? ==>
      forall j :: 0 <= j < |containers| ==> Collect(containers).value[j] == containers[j].item
    ensures Collect(containers).Failure? ==> exists j :: (0 <= j < |containers|
      && containers[j] == ReadFailed(Collect(containers).error)
      && forall k :: 0 <= k < j ==> containers[k].ReadOk?)
  {
    if containers != [] {
      var rest := containers[1..];
      CollectSpec(rest);
      if Collect(containers).Failure? && containers[0].ReadOk? {
        var j :| 0 <= j < |rest| && rest[j] == ReadFailed(Collect(rest).error)
          && forall k :: 0 <= k < j ==> rest[k].ReadOk?;
        assert containers[j + 1] == rest[j];
      }
    }
  }

  /** The outcome of a run, stated directly: abandon on any error, otherwise alert
      exactly when the selection is non-empty, with the body built from it. */
  function CheckStock(page: Page, targets: seq<string>): (r: Outcome)
    ensures r.Aborted? <==> !page.Loaded? || Collect(page.containers).Failure?
    ensures r.NoAlert? ==> Select(Collect(page.containers).value, targets) == []
    ensures r.Alert? ==> (r.subject == Subject
      && r.body == Body(Select(Collect(page.containers).value, targets)))
  {
    match page
    case LaunchFailed(f) => Aborted(f)
    case LoadFailed(f) => Aborted(f)
    case Loaded(containers) =>
      match Collect(containers)
      case Failure(f) => Aborted(f)
      case Success(items) =>
        var sel := Select(items, targets);
        if sel == [] then NoAlert else Alert(Subject, Body(sel))
  }

  /** A run alerts exactly when the page loaded, every item was read, and some item
      qualifies. */
  lemma CheckStockAlertIff(page: Page, targets: seq<string>)
    ensures CheckStock(page, targets).Alert? <==> (page.Loaded? && Collect(page.containers).Success?
      && exists x :: x in Collect(page.containers).value && Qualifies(x, targets))
  {
    if page.Loaded? && Collect(page.containers).Success? {
      SelectEmptyIff(Collect(page.containers).value, targets);
    }
  }

  /** Collecting item by item: a successful prefix followed by more containers. */
  lemma {:induction false} CollectAppend(a: seq<ItemRead>, b: seq<ItemRead>)
    requires Collect(a).Success?
    ensures Collect(b).Success? ==> Collect(a + b) == Success(Collect(a).value + Collect(b).value)
    ensures Collect(b).Failure? ==> Collect(a + b) == Failure(Collect(b).error)
  {
    if a == [] {
      assert a + b == b;
      assert Collect(a).value == [];
      if Collect(b).Success? {
        assert [] + Collect(b).value == Collect(b).value;
      }
    } else {
      assert (a + b)[0] == a[0];
      assert (a + b)[1..] == a[1..] + b;
      CollectAppend(a[1..], b);
      if Collect(b).Success? {
        var x := a[0].item;
        assert Collect(a).value == [x] + Collect(a[1..]).value;
        assert [x] + (Collect(a[1..]).value + Collect(b).value)
          == ([x] + Collect(a[1..]).value) + Collect(b).value;
      }
    }
  }

  /** The lines of a concatenation of entries are the concatenated lines. */
  lemma {:induction false} LinesAppend(a: seq<Entry>, b: seq<Entry>)
    ensures Lines(a + b) == Lines(a) + Lines(b)
  {
    if a == [] {
      assert a + b == b;
    } else {
      assert (a + b)[0] == a[0];
      assert (a + b)[1..] == a[1..] + b;
      LinesAppend(a[1..], b);
    }
  }

  /** One step of the item loop on the reading side: a successful read extends the
      collected texts, a failed one decides the whole page. */
  lemma CollectStep(containers: seq<ItemRead>, i: nat, seen: seq<RawItem>)
    requires i < |containers| && Collect(containers[..i]) == Success(seen)
    ensures containers[i].ReadOk? ==> Collect(containers[..i + 1]) == Success(seen + [containers[i].item])
    ensures containers[i].ReadFailed? ==> Collect(containers) == Failure(containers[i].fault)
  {
    var c := containers[i];
    assert [c][1..] == [];
    if c.ReadOk? {
      assert Collect([c][1..]) == Success([]);
      assert [c.item] + [] == [c.item];
      assert Collect([c]) == Success([c.item]);
      assert containers[..i + 1] == containers[..i] + [c];
      CollectAppend(containers[..i], [c]);
    } else {
      var rest := containers[i..];
      assert rest[0] == c;
      assert Collect(rest) == Failure(c.fault);
      assert containers == containers[..i] + rest;
      CollectAppend(containers[..i], rest);
    }
  }

  /** Appending an entry appends its line. */
  lemma LinesSnoc(es: seq<Entry>, e: Entry)
    ensures Lines(es + [e]) == Lines(es) + (LineText(e) + "\n")
  {
    LinesAppend(es, [e]);
    assert Lines([e]) == LineText(e) + "\n" by {
      assert [e][1..] == [];
    }
  }

  /** The selection side of one loop step: an item that does not qualify leaves the
      selection as it was. */
  lemma SelectStepOut(seen: seq<RawItem>, x: RawItem, targets: seq<string>)
    ensures !Qualifies(x, targets) ==> Select(seen + [x], targets) == Select(seen, targets)
  {
    SelectSnoc(seen, x, targets);
    var before := Select(seen, targets);
    assert before + [] == before;
  }

  /** The text side of one loop step: a qualifying item adds its line to the lines
      of the selection. */
  lemma LinesStepIn(seen: seq<RawItem>, x: RawItem, targets: seq<string>)
    ensures Qualifies(x, targets) ==>
      Lines(Select(seen + [x], targets)) == Lines(Select(seen, targets)) + (LineText(EntryOf(x)) + "\n")
  {
    SelectSnoc(seen, x, targets);
    if Qualifies(x, targets) {
      LinesSnoc(Select(seen, targets), EntryOf(x));
    }
  }

  /** The work the loop does for one item that was read: clean the name, parse the
      quantity, and append the item's line when it is a target in stock. */
  method AddItem(x: RawItem, targets: seq<string>, body: string, found: bool)
    returns (body': string, found': bool)
    ensures Qualifies(x, targets) ==> body' == body + (LineText(EntryOf(x)) + "\n") && found'
    ensures !Qualifies(x, targets) ==> body' == body && found' == found
  {
    var name := Names.CleanName(x.heading);
    var quantity := Quantity.ParseQuantity(x.stockText);
    assert Entry(name, quantity) == EntryOf(x);
    if name in targets && quantity > 0 {
      body' := body + (LineText(Entry(name, quantity)) + "\n");
      found' := true;
    } else {
      body' := body;
      found' := found;
    }
  }

  /** The loop of `check_stock` as written: it reads the items in order, appends a
      line for each qualifying one, and stops at the first error. The browser is
      closed on every path on which it was opened; with exceptions as values,
      the `finally` clause reduces to a final step. */
  method RunCheck(page: Page, targets: seq<string>) returns (outcome: Outcome, browserOpen: bool, browserClosed: bool)
    ensures outcome == CheckStock(page, targets)
    ensures browserOpen <==> !page.LaunchFailed?
    ensures browserClosed == browserOpen
  {
    browserOpen := false;
    browserClosed := false;
    match page {
      case LaunchFailed(f) =>
        outcome := Aborted(f);
      case LoadFailed(f) =>
        browserOpen := true;
        outcome := Aborted(f);
      case Loaded(containers) =>
        browserOpen := true;
        var found := false;
        var body := Header;
        var failure: Option<Fault> := None;
        ghost var seen: seq<RawItem> := [];
        var i := 0;
        assert containers[..0] == [];
        assert Header + Lines(Select(seen, targets)) == Header + [];
        while i < |containers| && failure.None?
          invariant 0 <= i <= |containers|
          invariant failure.None? ==> Collect(containers[..i]) == Success(seen)
          invariant failure.Some? ==> Collect(containers) == Failure(failure.value)
          invariant body == Header + Lines(Select(seen, targets))
          invariant found <==> Select(seen, targets) != []
        {
          CollectStep(containers, i, seen);
          match containers[i] {
            case ReadFailed(f) =>
              failure := Some(f);
            case ReadOk(x) =>
              ghost var lines := Lines(Select(seen, targets));
              body, found := AddItem(x, targets, body, found);
              SelectStepOut(seen, x, targets);
              LinesStepIn(seen, x, targets);
              if Qualifies(x, targets) {
                AppendAssoc(Header, lines, LineText(EntryOf(x)) + "\n");
              }
              seen := seen + [x];
          }
          i := i + 1;
        }
        if failure.Some? {
          outcome := Aborted(failure.value);
        } else {
          assert containers[..i] == containers;
          if found {
            outcome := Alert(Subject, Trim(body));
          } else {
            outcome := NoAlert;
          }
        }
    }
    if browserOpen {
      browserClosed := true;
    }
  }

  /** The call `send_email_notification` receives, if any: only an alert reaches it. */
  function Dispatch(outcome: Outcome, env: Env): (d: Option<Delivery>)
    ensures d.Some? <==> outcome.Alert?
    ensures d.Some? && d.value.Submit? ==> d.value.subject == outcome.subject && d.value.body == outcome.body
  {
    if outcome.Alert? then Some(SendEmailNotification(env, outcome.subject, outcome.body)) else None
  }

  /** An e-mail is submitted exactly when the page and all its items were read, some
      item qualifies, e-mail is switched on and all three credentials are set. */
  lemma EmailSubmittedIff(page: Page, targets: seq<string>, env: Env)
    ensures (var d := Dispatch(CheckStock(page, targets), env); d.Some? && d.value.Submit?) <==>
      && page.Loaded?
      && (forall j :: 0 <= j < |page.containers| ==> page.containers[j].ReadOk?)
      && (exists j :: 0 <= j < |page.containers| && Qualifies(page.containers[j].item, targets))
      && EmailEnabled(env.enableFlag)
      && Present(env.sender) && Present(env.password) && Present(env.recipient)
  {
    CheckStockAlertIff(page, targets);
    if page.Loaded? {
      CollectSpec(page.containers);
    }
    if page.Loaded? && Collect(page.containers).Success? {
      var items := Collect(page.containers).value;
      assert forall x :: x in items <==> exists j :: 0 <= j < |page.containers| && page.containers[j].item == x by {
        forall x ensures x in items <==> exists j :: 0 <= j < |page.containers| && page.containers[j].item == x {
          if x in items {
            var j :| 0 <= j < |items| && items[j] == x;
            assert page.containers[j].item == x;
          }
        }
      }
    }
  }

  /** An alert's body lists exactly the selected items, in page order. */
  lemma AlertListsSelection(page: Page, targets: seq<string>)
    requires forall t :: t in targets ==> NoNewline(t)
    ensures CheckStock(page, targets).Alert? ==>
      DecodeBody(CheckStock(page, targets).body) == Some(Select(Collect(page.containers).value, targets))
  {
    if CheckStock(page, targets).Alert? {
      var sel := Select(Collect(page.containers).value, targets);
      DecodeBodyOfBody(sel);
    }
  }

  /** An error while reading any item discards everything read before it. */
  lemma ErrorDiscardsEarlierItems(before: seq<RawItem>, f: Fault, after: seq<ItemRead>, targets: seq<string>)
    ensures CheckStock(Loaded(ReadAll(before) + [ReadFailed(f)] + after), targets) == Aborted(f)
  {
    var tail := [ReadFailed(f)] + after;
    var containers := ReadAll(before) + [ReadFailed(f)] + after;
    assert Collect(tail) == Failure(f) by {
      assert tail[0] == ReadFailed(f);
    }
    assert Collect(containers) == Failure(f) by {
      assert containers == ReadAll(before) + tail;
      CollectAppend(ReadAll(before), tail);
    }
  }

  /** Successful reads of the given items. */
  function ReadAll(items: seq<RawItem>): (r: seq<ItemRead>)
    ensures Collect(r) == Success(items)
  {
    if items == [] then []
    else
      var r := [ReadOk(items[0])] + ReadAll(items[1..]);
      assert r[1..] == ReadAll(items[1..]);
      assert [items[0]] + items[1..] == items;
      r
  }

  /**
   * A page listing one target with a positive stock line and another target
   * with "Stock: 0" alerts about the first target only.
   */
  lemma OneTargetInStock(name1: string, name2: string, w: string, n: nat, targets: seq<string>)
    requires name1 in targets && name2 in targets
    requires Stripped(name1) && TokenFree(name1)
    requires Stripped(name2) && TokenFree(name2)
    requires AllSpaces(w) && n > 0
    ensures CheckStock(
      Loaded([ReadOk(RawItem(name1 + SeedToken, Label + w + NatToString(n))),
              ReadOk(RawItem(name2 + SeedToken, Label + w + NatToString(0)))]),
      targets)
      == Alert(Subject, Body([Entry(name1, n)]))
  {
    var a := RawItem(name1 + SeedToken, Label + w + NatToString(n));
    var b := RawItem(name2 + SeedToken, Label + w + NatToString(0));
    assert EntryOf(a) == Entry(name1, n) by {
      QuantityOfStockText(w, n);
      CleanHeading(name1);
    }
    assert !Qualifies(b, targets) by {
      QuantityOfStockText(w, 0);
    }
    SelectPair(a, b, targets);
    ReadAllPair(a, b);
    CheckStockOfItems([a, b], targets);
  }

  /** Of two items of which only the first qualifies, only the first is selected. */
  lemma SelectPair(a: RawItem, b: RawItem, targets: seq<string>)
    ensures Qualifies(a, targets) && !Qualifies(b, targets) ==> Select([a, b], targets) == [EntryOf(a)]
  {
    var ea := EntryOf(a);
    var rest := Select([b], targets);
    assert rest == (if Qualifies(b, targets) then [EntryOf(b)] else []) by { SelectSingle(b, targets); }
    assert Select([a, b], targets) == (if Qualifies(a, targets) then [ea] else []) + rest by {
      assert [a, b][1..] == [b];
    }
    assert [ea] + [] == [ea];
  }

  /** Two items read without error. */
  lemma ReadAllPair(a: RawItem, b: RawItem)
    ensures ReadAll([a, b]) == [ReadOk(a), ReadOk(b)]
  {
    assert [a, b][1..] == [b];
    assert [b][1..] == [];
  }

  /** A page whose items were all read alerts exactly when the selection is non-empty. */
  lemma CheckStockOfItems(items: seq<RawItem>, targets: seq<string>)
    ensures CheckStock(Loaded(ReadAll(items)), targets)
      == if Select(items, targets) == [] then NoAlert else Alert(Subject, Body(Select(items, targets)))
  {
  }

  /** A page whose items never appear ends the run without an e-mail. */
  lemma TimeoutSendsNothing(targets: seq<string>, env: Env)
    ensures CheckStock(LoadFailed(Timeout), targets) == Aborted(Timeout)
    ensures Dispatch(CheckStock(LoadFailed(Timeout), targets), env) == None
  {
  }
}
