/** Comma-separated terms with quotes: reading them, and writing a selected one. */
module Autocomplete {
  import S = StringReplace

  /** White space as `trim` sees it. */
  predicate IsSpace(c: char) {
    var n := c as int;
    9 <= n <= 13 || n in {0x20, 0xa0, 0x1680, 0x2028, 0x2029, 0x202f, 0x205f, 0x3000, 0xfeff}
    || 0x2000 <= n <= 0x200a
  }

  function TrimLeft(s: string): string {
    if s != "" && IsSpace(s[0]) then TrimLeft(s[1..]) else s
  }

  function TrimRight(s: string): string {
    if s != "" && IsSpace(s[|s| - 1]) then TrimRight(s[..|s| - 1]) else s
  }

  function Trim(s: string): string {
    TrimRight(TrimLeft(s))
  }

  predicate Trimmed(s: string) {
    s != "" ==> !IsSpace(s[0]) && !IsSpace(s[|s| - 1])
  }

  /** Terms of the text s, when `current` has been read of the next one. */
  function Terms(s: string, quote: bool, current: string): (r: seq<string>)
    ensures r != []
    decreases |s|
  {
    if s == "" then [Trim(current)]
    else if s[0] == '"' then Terms(s[1..], !quote, current + [s[0]])
    else if s[0] == ',' && !quote then [Trim(current)] + Terms(s[1..], false, "")
    else Terms(s[1..], quote, current + [s[0]])
  }

  function Split(value: string): seq<string> {
    if value == "" then [] else Terms(value, false, "")
  }

  method SplitValues(value: string) returns (result: seq<string>)
    ensures result == Split(value)
  {
    result := [];
    var quote := false;
    var current := "";
    for i := 0 to |value|
      invariant Terms(value, false, "") == result + Terms(value[i..], quote, current)
    {
      var c := value[i];
      assert value[i..][0] == c && value[i..][1..] == value[i + 1..];
      if c == '"' {
        current := current + [c];
        quote := !quote;
      } else if c == ',' && !quote {
        result := result + [Trim(current)];
        current := "";
      } else {
        current := current + [c];
      }
    }
    if |value| > 0 {
      result := result + [Trim(current)];
    }
  }

  /** The text of a list of terms. */
  function Written(terms: seq<string>): string {
    S.Join(terms, ", ")
  }

  /** Position of the first comma, or -1. */
  function Search(s: string): (i: int)
    ensures -1 <= i < |s| && (i >= 0 ==> s[i] == ',')
    ensures forall j | 0 <= j < (if i < 0 then |s| else i) :: s[j] != ','
  {
    if s == "" then -1
    else if s[0] == ',' then 0
    else
      var i := Search(s[1..]);
      if i < 0 then -1 else i + 1
  }

  /** The term written for a selected item: quoted if it has a comma, but not when
      the comma comes first. */
  function Pushed(item: string): string {
    if Search(item) > 0 then "\"" + item + "\"" else item
  }

  /** The text after selecting an item: the last term is replaced by it. */
  method SelectHandler(value: string, item: string) returns (text: string)
    ensures text == Written(DropLast(Split(value)) + [Pushed(item)])
  {
    var terms := SplitValues(value);
    if |terms| > 0 {
      terms := terms[..|terms| - 1];
    }
    if Search(item) > 0 {
      terms := terms + ["\"" + item + "\""];
    } else {
      terms := terms + [item];
    }
    text := Written(terms);
  }

  function DropLast(terms: seq<string>): seq<string> {
    if terms == [] then [] else terms[..|terms| - 1]
  }

  /** An item without a comma is written as it is; so is one that begins with a comma, and
      every other one is put in quotes. */
  lemma PushedExact(item: string)
    ensures ',' !in item ==> Pushed(item) == item
    ensures ',' in item && item[0] == ',' ==> Pushed(item) == item
    ensures ',' in item && item[0] != ',' ==> Pushed(item) == "\"" + item + "\""
  {
  }

  /* ---- reading a text term by term ---- */

  /** Whether a text leaves the reader inside quotes. */
  function Quoting(s: string, quote: bool): bool {
    if s == "" then quote else Quoting(s[1..], if s[0] == '"' then !quote else quote)
  }

  /** Every comma of the text is inside quotes. */
  predicate Whole(s: string, quote: bool) {
    s != "" ==>
      !(s[0] == ',' && !quote) && Whole(s[1..], if s[0] == '"' then !quote else quote)
  }

  /** A text that reads as one term and closes its quotes. */
  predicate Closed(s: string) {
    Whole(s, false) && !Quoting(s, false)
  }

  lemma {:induction false} ReadOn(a: string, b: string, quote: bool, current: string)
    requires Whole(a, quote)
    ensures Terms(a + b, quote, current) == Terms(b, Quoting(a, quote), current + a)
    decreases |a|
  {
    if a == "" {
      assert a + b == b && current + a == current;
    } else {
      assert (a + b)[1..] == a[1..] + b;
      ReadOn(a[1..], b, if a[0] == '"' then !quote else quote, current + [a[0]]);
      assert current + [a[0]] + a[1..] == current + a;
    }
  }

  /** A closed term and the comma after it are read off the front. */
  lemma ReadTerm(a: string, b: string, current: string)
    requires Closed(a)
    ensures Terms(a + "," + b, false, current) == [Trim(current + a)] + Terms(b, false, "")
  {
    assert a + "," + b == a + ("," + b);
    ReadOn(a, "," + b, false, current);
    assert ("," + b)[1..] == b;
  }

  /** At the end of the text a term need not close its quotes. */
  lemma ReadLast(a: string, current: string)
    requires Whole(a, false)
    ensures Terms(a, false, current) == [Trim(current + a)]
  {
    assert a + "" == a;
    ReadOn(a, "", false, current);
  }

  /** A comma outside quotes makes two terms. */
  lemma {:induction false} ReadTwo(s: string, quote: bool, current: string)
    requires !Whole(s, quote)
    ensures |Terms(s, quote, current)| >= 2
    decreases |s|
  {
    if !(s[0] == ',' && !quote) {
      ReadTwo(s[1..], if s[0] == '"' then !quote else quote, current + [s[0]]);
    }
  }

  lemma {:induction false} WholeConcat(a: string, b: string, quote: bool)
    ensures Whole(a + b, quote) <==> Whole(a, quote) && Whole(b, Quoting(a, quote))
    ensures Quoting(a + b, quote) == Quoting(b, Quoting(a, quote))
    decreases |a|
  {
    if a == "" {
      assert a + b == b;
    } else {
      assert (a + b)[1..] == a[1..] + b;
      WholeConcat(a[1..], b, if a[0] == '"' then !quote else quote);
    }
  }

  /* ---- trimming ---- */

  lemma SpaceIsPlain(c: char)
    requires IsSpace(c)
    ensures c != ',' && c != '"'
  {
  }

  lemma {:induction false} TrimLeftPlain(s: string)
    ensures Whole(TrimLeft(s), false) == Whole(s, false)
    ensures Quoting(TrimLeft(s), false) == Quoting(s, false)
    ensures TrimLeft(s) != "" ==> !IsSpace(TrimLeft(s)[0])
  {
    if s != "" && IsSpace(s[0]) {
      SpaceIsPlain(s[0]);
      TrimLeftPlain(s[1..]);
    }
  }

  lemma {:induction false} TrimRightPlain(s: string)
    ensures Whole(TrimRight(s), false) == Whole(s, false)
    ensures Quoting(TrimRight(s), false) == Quoting(s, false)
    ensures TrimRight(s) != "" ==> !IsSpace(TrimRight(s)[|TrimRight(s)| - 1]) && TrimRight(s)[0] == s[0]
    decreases |s|
  {
    if s != "" && IsSpace(s[|s| - 1]) {
      var t, c := s[..|s| - 1], s[|s| - 1];
      SpaceIsPlain(c);
      TrimRightPlain(t);
      assert s == t + [c];
      WholeConcat(t, [c], false);
      assert [c][1..] == "";
    }
  }

  /** Trimming keeps a closed text closed, and leaves it trimmed. */
  lemma TrimClosed(s: string)
    ensures Closed(Trim(s)) == Closed(s)
    ensures Trimmed(Trim(s))
  {
    TrimLeftPlain(s);
    TrimRightPlain(TrimLeft(s));
  }

  lemma TrimOnce(s: string)
    requires Trimmed(s)
    ensures Trim(s) == s && Trim(" " + s) == s
  {
    assert (" " + s)[1..] == s;
  }

  /* ---- the round trip ---- */

  /** Terms that the reader has settled: closed, with no space around them. */
  predicate AllSettled(terms: seq<string>) {
    forall i | 0 <= i < |terms| :: Closed(terms[i]) && Trimmed(terms[i])
  }

  /** Every term that was read, but the last, is settled. */
  lemma {:induction false} TermsClosed(s: string, quote: bool, current: string)
    requires Whole(current, false) && Quoting(current, false) == quote
    ensures AllSettled(DropLast(Terms(s, quote, current)))
    decreases |s|
  {
    if s == "" {
    } else if s[0] == ',' && !quote {
      TrimClosed(current);
      TermsClosed(s[1..], false, "");
      var rest := Terms(s[1..], false, "");
      assert DropLast([Trim(current)] + rest) == [Trim(current)] + DropLast(rest);
    } else {
      WholeConcat(current, [s[0]], false);
      assert [s[0]][1..] == "";
      TermsClosed(s[1..], if s[0] == '"' then !quote else quote, current + [s[0]]);
    }
  }

  /** A leading space makes no difference, and exactly a trimmed text is left alone. */
  lemma TrimExact(lead: string, s: string)
    requires lead == "" || lead == " "
    ensures Trim(lead + s) == Trim(s)
    ensures Trim(s) == s <==> Trimmed(s)
  {
    assert (" " + s)[1..] == s && "" + s == s;
    TrimClosed(s);
    if Trimmed(s) {
      TrimOnce(s);
    }
  }

  /** What a reader has of a text: pieces between which the commas stood. */
  ghost predicate IsCut(text: string, pieces: seq<string>, terms: seq<string>) {
    && pieces != [] && S.Join(pieces, ",") == text
    && |terms| == |pieces| && (forall i | 0 <= i < |pieces| :: terms[i] == Trim(pieces[i]))
    && (forall i | 0 <= i < |pieces| - 1 :: Closed(pieces[i]))
    && Whole(pieces[|pieces| - 1], false)
  }

  lemma WholeStep(current: string, c: char)
    requires Whole(current, false) && !(c == ',' && !Quoting(current, false))
    ensures Whole(current + [c], false)
    ensures Quoting(current + [c], false) == if c == '"' then !Quoting(current, false) else Quoting(current, false)
  {
    WholeConcat(current, [c], false);
    assert [c][1..] == "";
  }

  lemma WholeNone()
    ensures Whole("", false) && !Quoting("", false)
  {
  }

  lemma CutOne(piece: string)
    requires Whole(piece, false)
    ensures IsCut(piece, [piece], [Trim(piece)])
  {
  }

  lemma CutCons(piece: string, text: string, pieces: seq<string>, terms: seq<string>)
    requires Closed(piece) && IsCut(text, pieces, terms)
    ensures IsCut(piece + "," + text, [piece] + pieces, [Trim(piece)] + terms)
  {
    S.JoinCons(piece, pieces, ",");
    var all := [piece] + pieces;
    assert all[|all| - 1] == pieces[|pieces| - 1];
  }

  /** A text is cut at exactly the commas that stand outside quotes, and the terms are the
      pieces without the spaces around them. */
  lemma {:induction false} TermsCut(s: string, quote: bool, current: string) returns (pieces: seq<string>)
    requires Whole(current, false) && Quoting(current, false) == quote
    ensures IsCut(current + s, pieces, Terms(s, quote, current))
    decreases |s|
  {
    hide IsCut, Trim, Whole, Quoting;
    if s == "" {
      pieces := [current];
      assert current + s == current;
      CutOne(current);
    } else if s[0] == ',' && !quote {
      WholeNone();
      var rest := TermsCut(s[1..], false, "");
      pieces := [current] + rest;
      assert "" + s[1..] == s[1..];
      CutCons(current, s[1..], rest, Terms(s[1..], false, ""));
      assert current + s == current + "," + s[1..];
    } else {
      WholeStep(current, s[0]);
      pieces := TermsCut(s[1..], if s[0] == '"' then !quote else quote, current + [s[0]]);
      assert current + [s[0]] + s[1..] == current + s;
    }
  }

  lemma SplitExact(value: string) returns (pieces: seq<string>)
    requires value != ""
    ensures IsCut(value, pieces, Split(value))
  {
    pieces := TermsCut(value, false, "");
    assert "" + value == value;
  }

  predicate AllSpace(s: string) {
    forall i | 0 <= i < |s| :: IsSpace(s[i])
  }

  /** Trimming takes only white space away, at both ends. */
  lemma TrimParts(s: string) returns (before: string, after: string)
    ensures s == before + Trim(s) + after && AllSpace(before) && AllSpace(after)
  {
    before := LeftSpace(s);
    after := RightSpace(TrimLeft(s));
    assert s == before + (Trim(s) + after);
  }

  lemma {:induction false} LeftSpace(s: string) returns (before: string)
    ensures s == before + TrimLeft(s) && AllSpace(before)
  {
    before := "";
    if s != "" && IsSpace(s[0]) {
      before := LeftSpace(s[1..]);
      before := [s[0]] + before;
    }
  }

  lemma {:induction false} RightSpace(s: string) returns (after: string)
    ensures s == TrimRight(s) + after && AllSpace(after)
    decreases |s|
  {
    after := "";
    if s != "" && IsSpace(s[|s| - 1]) {
      after := RightSpace(s[..|s| - 1]);
      assert s == s[..|s| - 1] + [s[|s| - 1]];
      after := after + [s[|s| - 1]];
    }
  }

  /** Joined terms are read back one by one, the last one trimmed; `lead` is the space
      before the first. */
  lemma {:induction false} WrittenTerms(terms: seq<string>, last: string, lead: string)
    requires (lead == "" || lead == " ") && AllSettled(terms) && Whole(last, false)
    ensures Terms(lead + Written(terms + [last]), false, "") == terms + [Trim(last)]
    decreases |terms|
  {
    hide Quoting, Trim, TrimLeft, TrimRight, IsSpace, Terms;
    var all := terms + [last];
    var t := all[0];
    TrimExact(lead, t);
    LeadWhole(lead, t);
    assert "" + (lead + t) == lead + t;
    if terms == [] {
      ReadLast(lead + t, "");
    } else {
      assert all[1..] == terms[1..] + [last];
      WrittenTerms(terms[1..], last, " ");
      WrittenSplits(all, lead);
      ReadTerm(lead + t, " " + Written(all[1..]), "");
      assert terms + [Trim(last)] == [t] + (terms[1..] + [Trim(last)]);
    }
  }

  lemma WrittenSplits(terms: seq<string>, lead: string)
    requires |terms| > 1
    ensures lead + Written(terms) == (lead + terms[0]) + "," + (" " + Written(terms[1..]))
  {
    var rest := Written(terms[1..]);
    assert terms[0] + ", " + rest == terms[0] + ("," + (" " + rest));
    assert lead + (terms[0] + ("," + (" " + rest))) == (lead + terms[0]) + "," + (" " + rest);
  }

  lemma LeadWhole(lead: string, t: string)
    requires lead == "" || lead == " "
    ensures Whole(lead + t, false) <==> Whole(t, false)
    ensures Closed(lead + t) <==> Closed(t)
  {
    assert lead + t == t || (lead + t)[1..] == t;
  }

  lemma {:induction false} NoQuotesWhole(s: string, quote: bool)
    requires '"' !in s
    ensures Quoting(s, quote) == quote
    ensures Whole(s, quote) <==> quote || ',' !in s
  {
    if s != "" {
      assert forall c | c in s[1..] :: c in s;
      assert s == [s[0]] + s[1..];
      NoQuotesWhole(s[1..], quote);
    }
  }

  lemma {:induction false} WrittenEmpty(terms: seq<string>, last: string)
    ensures Written(terms + [last]) == "" <==> terms == [] && last == ""
  {
    if terms != [] {
      assert (terms + [last])[1..] == terms[1..] + [last];
    }
  }

  /** What splitting the written text should give. */
  predicate ReadsBack(value: string, item: string) {
    var terms := DropLast(Split(value)) + [Pushed(item)];
    Split(Written(terms)) == terms
  }

  lemma {:induction false} TooManyTerms(terms: seq<string>, last: string, lead: string)
    requires (lead == "" || lead == " ") && AllSettled(terms) && !Whole(last, false)
    ensures |Terms(lead + Written(terms + [last]), false, "")| >= |terms| + 2
    decreases |terms|
  {
    hide Whole, Quoting, Trim, TrimLeft, TrimRight, IsSpace, Terms;
    var all := terms + [last];
    LeadWhole(lead, all[0]);
    if terms == [] {
      ReadTwo(lead + last, false, "");
    } else {
      assert all[1..] == terms[1..] + [last];
      TooManyTerms(terms[1..], last, " ");
      WrittenSplits(all, lead);
      ReadTerm(lead + all[0], " " + Written(all[1..]), "");
    }
  }

  /** What is pushed is read back as one term exactly if every comma of it is inside
      quotes, it is trimmed, and something is written at all. */
  lemma PushedReads(value: string, item: string)
    ensures ReadsBack(value, item) <==>
      && Whole(Pushed(item), false) && Trimmed(Pushed(item))
      && (Pushed(item) != "" || DropLast(Split(value)) != [])
  {
    var kept, p := DropLast(Split(value)), Pushed(item);
    if value != "" {
      TermsClosed(value, false, "");
    }
    WrittenEmpty(kept, p);
    TrimExact("", p);
    var text := Written(kept + [p]);
    assert "" + text == text;
    if Whole(p, false) {
      WrittenTerms(kept, p, "");
      assert (kept + [Trim(p)])[|kept|] == Trim(p) && (kept + [p])[|kept|] == p;
    } else {
      TooManyTerms(kept, p, "");
    }
  }

  /** The item is read back from between the quotes put around it, or without quotes. */
  predicate Readable(value: string, item: string) {
    if ',' in item then item[0] != ',' && Whole(item, true)
    else Trimmed(item) && (item != "" || DropLast(Split(value)) != [])
  }

  /** For every old text and every item: splitting the written text gives the old terms
      without the last one, and then exactly the pushed term, if and only if the item
      does not begin with a comma and has no other that its own quotes leave open, or,
      without any comma, is trimmed and not all there is and empty. */
  lemma SelectExact(value: string, item: string)
    ensures ReadsBack(value, item) <==> Readable(value, item)
  {
    PushedReads(value, item);
    if Search(item) > 0 {
      QuotedWhole(item);
    } else if Search(item) < 0 {
      NoCommaWhole(item, false);
    } else {
      assert !Whole(item, false);
    }
  }

  lemma QuotedWhole(item: string)
    ensures var t := "\"" + item + "\""; Trimmed(t) && (Whole(t, false) <==> Whole(item, true))
  {
    var t := "\"" + item + "\"";
    assert t == "\"" + (item + "\"");
    assert t[1..] == item + "\"";
    WholeConcat(item, "\"", true);
    assert "\""[1..] == "";
  }

  lemma {:induction false} NoCommaWhole(item: string, quote: bool)
    requires ',' !in item
    ensures Whole(item, quote)
  {
    if item != "" {
      assert item == [item[0]] + item[1..];
      NoCommaWhole(item[1..], if item[0] == '"' then !quote else quote);
    }
  }

  /** An item with a comma but no double quotes is read back exactly if it does not begin
      with the comma: its first comma is then not looked for at position 0. */
  lemma PlainItemExact(value: string, item: string)
    requires '"' !in item && ',' in item
    ensures ReadsBack(value, item) <==> item[0] != ','
  {
    SelectExact(value, item);
    NoQuotesWhole(item, true);
  }

  /** An item whose first quote comes right before a comma, such as a",b, falls apart. */
  lemma QuoteBeforeComma(value: string, a: string, b: string)
    requires '"' !in a
    ensures !ReadsBack(value, a + "\"" + "," + b)
  {
    var rest := "," + b;
    var item := a + ("\"" + rest);
    assert a + "\"" + "," + b == item;
    SelectExact(value, item);
    NoQuotesWhole(a, true);
    WholeConcat(a, "\"" + rest, true);
    assert ("\"" + rest)[1..] == rest;
    assert item[|a| + 1] == ',';
  }

  /** An item whose quotes come in pairs around text without commas, such as a"b",c, does
      not. */
  lemma QuotePair(value: string, a: string, b: string, c: string)
    requires '"' !in a && (a != "" ==> a[0] != ',')
    requires '"' !in b && ',' !in b && '"' !in c
    ensures ReadsBack(value, a + "\"" + b + "\"" + "," + c)
  {
    var tail := "," + c;
    var back := b + ("\"" + tail);
    var item := a + ("\"" + back);
    assert a + "\"" + b + "\"" + "," + c == item;
    SelectExact(value, item);
    NoQuotesWhole(a, true);
    NoQuotesWhole(b, false);
    NoQuotesWhole(tail, true);
    WholeConcat(a, "\"" + back, true);
    assert ("\"" + back)[1..] == back;
    WholeConcat(b, "\"" + tail, false);
    assert ("\"" + tail)[1..] == tail;
    assert item[|a| + 1 + |b| + 1] == ',';
  }
}
