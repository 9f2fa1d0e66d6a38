/**
 * The alert message `check_stock` hands to the mailer: a fixed subject, and a body
 * made of a fixed header and one line per selected item, stripped as a whole.
 */
module AlertBody {
  import opened Wrappers
  import opened Text
  import opened Selection

  const Subject: string := "Gamersberg Stock Alert!"
  /** The text the body starts from (written in two pieces so that the verifier
      sees its first character without unfolding the whole literal). */
  const Header: string := "The" + " following target seeds are now available:\n\n"
  /** The text that closes each line. */
  const Tail: string := " available!"

  /** No line break anywhere in `s`. */
  predicate NoNewline(s: string) {
    forall i :: 0 <= i < |s| ==> s[i] != '\n'
  }

  /** `f"- {name}: {q} available!"`, without its line break. */
  function LineText(e: Entry): string {
    "- " + e.name + ": " + NatToString(e.quantity) + Tail
  }

  /** The lines appended to the body, one per entry, each closed by a line break. */
  function Lines(es: seq<Entry>): (t: string)
    ensures es == [] <==> t == []
  {
    if es == [] then [] else LineText(es[0]) + "\n" + Lines(es[1..])
  }

  /** The body sent when `es` is the selection: the accumulated text, stripped. */
  function Body(es: seq<Entry>): (b: string)
    ensures Stripped(b)
    ensures es != [] ==> b + "\n" == Header + Lines(es)
  {
    var t := Lines(es);
    var b := Trim(Header + t);
    if es != [] then
      HeaderStart();
      LinesEnd(es);
      TrimDropsFinalNewline(Header, t);
      b
    else b
  }

  /** The header opens with a letter, so stripping keeps it whole. */
  lemma HeaderStart()
    ensures Header != [] && !IsSpace(Header[0])
  {
    assert Header[0] == "The"[0];
  }

  /** The accumulated lines end in `"!\n"`. */
  lemma {:induction false} LinesEnd(es: seq<Entry>)
    requires es != []
    ensures |Lines(es)| >= 2
    ensures Lines(es)[|Lines(es)| - 1] == '\n' && Lines(es)[|Lines(es)| - 2] == '!'
  {
    var l := LineText(es[0]);
    assert l[|l| - 1] == '!';
    if es[1..] != [] {
      LinesEnd(es[1..]);
    }
  }

  /** The first line break in `t`, if any. */
  function FirstNewline(t: string): (r: Option<nat>)
    ensures r.None? ==> NoNewline(t)
    ensures r.Some? ==> r.value < |t| && t[r.value] == '\n' && NoNewline(t[..r.value])
  {
    if t == [] then None
    else if t[0] == '\n' then Some(0)
    else match FirstNewline(t[1..])
      case None => None
      case Some(i) =>
        assert t[..i + 1] == [t[0]] + t[1..][..i];
        Some(i + 1)
  }

  /** The start of the run of digits that ends `m`. */
  function DigitStart(m: string): (r: nat)
    ensures r <= |m|
    ensures AllDigits(m[r..])
    ensures r == 0 || !IsDigit(m[r - 1])
  {
    if m != [] && IsDigit(m[|m| - 1]) then
      var r := DigitStart(m[..|m| - 1]);
      assert m[r..] == m[..|m| - 1][r..] + [m[|m| - 1]];
      r
    else |m|
  }

  /** Reads one line `"- {name}: {q} available!"` back into its entry; the quantity
      is the trailing digit run, so a name may itself contain `": "` or digits. */
  function DecodeLine(l: string): Option<Entry> {
    if |l| >= 2 + |Tail| && l[..2] == "- " && l[|l| - |Tail|..] == Tail then
      var m := l[2..|l| - |Tail|];
      var d := DigitStart(m);
      if 2 <= d < |m| && m[d - 2..d] == ": " then Some(Entry(m[..d - 2], DecimalValue(m[d..])))
      else None
    else None
  }

  /** Reads line-break-terminated lines back into entries. */
  function DecodeLines(t: string): Option<seq<Entry>>
    decreases |t|
  {
    if t == [] then Some([])
    else match FirstNewline(t)
      case None => None
      case Some(i) =>
        match DecodeLine(t[..i])
        case None => None
        case Some(e) =>
          match DecodeLines(t[i + 1..])
          case None => None
          case Some(rest) => Some([e] + rest)
  }

  /** Reads an alert body back into the entries it lists. */
  function DecodeBody(b: string): Option<seq<Entry>> {
    if |Header| <= |b| && b[..|Header|] == Header then DecodeLines(b[|Header|..] + "\n") else None
  }

  /** The trailing digit run of a line's middle part is exactly the printed quantity. */
  lemma DigitStartOfQuantity(name: string, ds: string)
    requires |ds| > 0 && AllDigits(ds)
    ensures DigitStart(name + ": " + ds) == |name| + 2
  {
    var p := name + ": ";
    var m := p + ds;
    var r := DigitStart(m);
    var k := |p|;
    SplitConcat(p, ds);
    assert m[k - 1] == p[k - 1] == ' ';
  }

  /** A line is `"- "`, then the name, `": "` and the quantity, then the tail. */
  lemma LineLayout(e: Entry)
    ensures |LineText(e)| >= 2 + |Tail|
    ensures LineText(e)[..2] == "- "
    ensures LineText(e)[|LineText(e)| - |Tail|..] == Tail
    ensures LineText(e)[2..|LineText(e)| - |Tail|] == e.name + ": " + NatToString(e.quantity)
  {
    var m := e.name + ": " + NatToString(e.quantity);
    var l := LineText(e);
    assert l == ("- " + m) + Tail;
    SplitConcat("- " + m, Tail);
    SplitConcat("- ", m);
  }

  /** The middle of a line splits back into the name and the digits after `": "`. */
  lemma MiddleLayout(name: string, ds: string)
    requires |ds| > 0 && AllDigits(ds)
    ensures DigitStart(name + ": " + ds) == |name| + 2
    ensures (name + ": " + ds)[|name|..|name| + 2] == ": "
    ensures (name + ": " + ds)[..|name|] == name
    ensures (name + ": " + ds)[|name| + 2..] == ds
  {
    var p := name + ": ";
    DigitStartOfQuantity(name, ds);
    SplitConcat(p, ds);
    SplitConcat(name, ": ");
    assert (p + ds)[..|p|] == p;
  }

  /** Each line reads back as its entry. */
  lemma DecodeLineText(e: Entry)
    ensures DecodeLine(LineText(e)) == Some(e)
  {
    var ds := NatToString(e.quantity);
    LineLayout(e);
    MiddleLayout(e.name, ds);
    DecimalValueOfNatToString(e.quantity);
  }

  /** The first line break after a line without one is the one that ends it. */
  lemma FirstNewlineAfter(l: string, rest: string)
    requires NoNewline(l)
    ensures FirstNewline(l + "\n" + rest) == Some(|l|)
  {
    var t := l + "\n" + rest;
    var r := FirstNewline(t);
    assert t[|l|] == '\n';
    assert forall j :: 0 <= j < |l| ==> t[j] == l[j];
  }

  lemma LineTextNoNewline(e: Entry)
    requires NoNewline(e.name)
    ensures NoNewline(LineText(e))
  {
    var ds := NatToString(e.quantity);
    var l := LineText(e);
    forall i | 0 <= i < |l| ensures l[i] != '\n' {
      if i < 2 {
      } else if i < 2 + |e.name| {
        assert l[i] == e.name[i - 2];
      } else if i < 4 + |e.name| {
      } else if i < 4 + |e.name| + |ds| {
        assert l[i] == ds[i - 4 - |e.name|];
      } else {
        assert l[i] == Tail[i - 4 - |e.name| - |ds|];
      }
    }
  }

  /** The accumulated lines read back as the entries they were built from. */
  lemma {:induction false} DecodeLinesOfLines(es: seq<Entry>)
    requires forall e :: e in es ==> NoNewline(e.name)
    ensures DecodeLines(Lines(es)) == Some(es)
  {
    if es != [] {
      var l := LineText(es[0]);
      var rest := Lines(es[1..]);
      LineTextNoNewline(es[0]);
      FirstNewlineAfter(l, rest);
      var t := l + "\n" + rest;
      assert Lines(es) == t;
      assert t[..|l|] == l;
      assert t[|l| + 1..] == rest;
      DecodeLineText(es[0]);
      DecodeLinesOfLines(es[1..]);
      assert [es[0]] + es[1..] == es;
    }
  }

  /** Round trip: the body of a non-empty selection lists exactly its entries, in
      order, whenever no name contains a line break. */
  lemma DecodeBodyOfBody(es: seq<Entry>)
    requires es != []
    requires forall e :: e in es ==> NoNewline(e.name)
    ensures DecodeBody(Body(es)) == Some(es)
  {
    var b := Body(es);
    var t := Lines(es);
    SplitBeforeNewline(b, Header, t);
    DecodeLinesOfLines(es);
  }

  /** The accumulated lines end with the tail of the last line and its line break. */
  lemma {:induction false} LinesEndWithTail(es: seq<Entry>)
    requires es != []
    ensures |Lines(es)| > |Tail|
    ensures Lines(es)[|Lines(es)| - |Tail| - 1..] == Tail + "\n"
  {
    var l := LineText(es[0]);
    var rest := Lines(es[1..]);
    var n := |Tail| + 1;
    assert Lines(es) == ("- " + es[0].name + ": " + NatToString(es[0].quantity)) + (Tail + "\n" + rest);
    if es[1..] == [] {
      assert Lines(es) == ("- " + es[0].name + ": " + NatToString(es[0].quantity)) + (Tail + "\n");
      SuffixOfConcat("- " + es[0].name + ": " + NatToString(es[0].quantity), Tail + "\n", n);
    } else {
      LinesEndWithTail(es[1..]);
      assert Lines(es) == (l + "\n") + rest;
      SuffixOfConcat(l + "\n", rest, n);
    }
  }

  /** The body opens with the header and closes with the words `" available!"`. */
  lemma BodyEnds(es: seq<Entry>)
    requires es != []
    ensures |Body(es)| >= |Header| + |Tail|
    ensures Body(es)[..|Header|] == Header
    ensures Body(es)[|Body(es)| - |Tail|..] == Tail
  {
    var b := Body(es);
    var t := Lines(es);
    assert b + "\n" == Header + t;
    LinesEndWithTail(es);
    FramedByNewline(b, Header, t, Tail);
  }
}
