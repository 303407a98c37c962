/** The whole command buildscripts/errorcodes.py: scan, next code, and what --fix leaves in the files. */
module ErrorCodes {
  import opened Sequences
  import opened Text
  import opened LineColumn
  import opened ErrorScan
  import opened ErrorFix

  // ---------- Numerals in a text ----------

  predicate IsDigit(c: char) {
    '0' <= c <= '9'
  }

  /** The numeral that a text begins with. */
  function LeadingDigits(s: string): string {
    if s == "" || !IsDigit(s[0]) then "" else [s[0]] + LeadingDigits(s[1..])
  }

  lemma {:induction false} LeadingDigitsOf(numeral: string, rest: string)
    requires IsDigits(numeral) && LeadingDigits(rest) == ""
    ensures LeadingDigits(numeral + rest) == numeral
  {
    if numeral == "" {
      assert numeral + rest == rest;
    } else {
      assert IsDigits(numeral[1..]);
      LeadingDigitsOf(numeral[1..], rest);
      assert (numeral + rest)[1..] == numeral[1..] + rest;
    }
  }

  lemma TimesTen(a: nat, b: nat)
    ensures 10 * (a * b) == a * (10 * b)
  {
  }

  /** Zeros behind a numeral multiply it. */
  lemma {:induction false} IntOfShifted(s: string, zeros: string)
    requires IsDigits(s) && IsDigits(zeros) && IntOf(zeros) == 0
    ensures IsDigits(s + zeros) && IntOf(s + zeros) == IntOf(s) * Pow10(|zeros|)
  {
    if zeros == "" {
      assert s + zeros == s;
    } else {
      var front, value := zeros[..|zeros| - 1], IntOf(s);
      IntOfShifted(s, front);
      assert (s + zeros)[..|s + zeros| - 1] == s + front && zeros[|zeros| - 1] == '0';
      assert IntOf(s + zeros) == 10 * IntOf(s + front);
      TimesTen(value, Pow10(|front|));
    }
  }

  /** The code of a location is the whole numeral at its place. */
  ghost predicate IsCodeAt(text: string, l: Location) {
    var end := l.offset + |l.code|;
    && l.code != "" && IsDigits(l.code) && end <= |text| && text[l.offset..end] == l.code
    && (l.offset > 0 ==> !IsDigit(text[l.offset - 1])) && (end < |text| ==> !IsDigit(text[end]))
  }

  /** What a scan of the texts gives: each code where it is, and no place twice. */
  ghost predicate Scanned(texts: map<string, string>, locs: seq<Location>) {
    && (forall i :: 0 <= i < |locs| ==> locs[i].file in texts && IsCodeAt(texts[locs[i].file], locs[i]))
    && (forall i, j :: 0 <= i < j < |locs| ==> !SamePlace(locs[i], locs[j]))
  }

  // ---------- The text after the edits ----------

  lemma {:induction false} SubstituteSplit(text: string, edits: map<nat, string>, from: nat, at: nat)
    requires from <= at <= |text|
    ensures Substitute(text, edits, from) == Substitute(text[..at], edits, from) + Substitute(text, edits, at)
    decreases at - from
  {
    if from < at {
      SubstituteSplit(text, edits, from + 1, at);
      var here := if from in edits then edits[from] else [text[from]];
      assert Substitute(text[..at], edits, from) == here + Substitute(text[..at], edits, from + 1);
      ConcatAssociates(here, Substitute(text[..at], edits, from + 1), Substitute(text, edits, at));
    }
  }

  /** The edits fall on the beginnings of numerals. */
  ghost predicate AtNumerals(text: string, edits: map<nat, string>) {
    forall k :: k in edits ==> k < |text| && IsDigit(text[k]) && (k > 0 ==> !IsDigit(text[k - 1]))
  }

  /** The numeral found at the place of `l` once the edits have been made. */
  function CodeAfter(text: string, edits: map<nat, string>, l: Location): string {
    LeadingDigits(Substitute(text, edits, l.offset))
  }

  /** No edit falls inside a code, or right behind it. */
  lemma NoEditInside(text: string, edits: map<nat, string>, l: Location, k: nat)
    requires IsCodeAt(text, l) && AtNumerals(text, edits) && l.offset < k <= l.offset + |l.code|
    ensures k !in edits
  {
    assert text[k - 1] == l.code[k - 1 - l.offset];
  }

  lemma TextAfterEdits(text: string, edits: map<nat, string>, l: Location)
    requires IsCodeAt(text, l) && AtNumerals(text, edits)
    ensures var rest := Substitute(text, edits, l.offset + |l.code|);
            && LeadingDigits(rest) == ""
            && Substitute(text, edits, l.offset) == (if l.offset in edits then edits[l.offset] else l.code[..1]) + l.code[1..] + rest
  {
    var at, end := l.offset, l.offset + |l.code|;
    forall k | at < k <= end ensures k !in edits {
      NoEditInside(text, edits, l, k);
    }
    SubstituteUntouched(text, edits, at + 1, end);
    assert text[at..end][0] == text[at] && text[at..end][1..] == text[at + 1..end];
    assert [text[at]] == l.code[..1] && text[at + 1..end] == l.code[1..];
    var first, rest := if at in edits then edits[at] else l.code[..1], Substitute(text, edits, end);
    assert Substitute(text, edits, at) == first + (l.code[1..] + rest);
    ConcatAssociates(first, l.code[1..], rest);
    assert end < |text| ==> rest[0] == text[end];
  }

  /** An edit replaces the first digit of a code and keeps the others. */
  lemma CodeAfterEdits(text: string, edits: map<nat, string>, l: Location)
    requires IsCodeAt(text, l) && AtNumerals(text, edits) && (l.offset in edits ==> IsDigits(edits[l.offset]))
    ensures CodeAfter(text, edits, l) == if l.offset in edits then edits[l.offset] + l.code[1..] else l.code
  {
    TextAfterEdits(text, edits, l);
    var first := if l.offset in edits then edits[l.offset] else l.code[..1];
    assert l.code[..1] + l.code[1..] == l.code;
    LeadingDigitsOf(first + l.code[1..], Substitute(text, edits, l.offset + |l.code|));
  }

  /** The text before the place ends where it did, so the numeral found there begins there. */
  lemma PlaceAfterEdits(text: string, edits: map<nat, string>, l: Location)
    requires IsCodeAt(text, l) && AtNumerals(text, edits)
    ensures var before := Substitute(text[..l.offset], edits, 0);
            && Substitute(text, edits, 0) == before + Substitute(text, edits, l.offset)
            && (before != "" ==> !IsDigit(before[|before| - 1]))
  {
    SubstituteSplit(text, edits, 0, l.offset);
    if l.offset > 0 {
      var front := text[..l.offset];
      SubstituteSplit(front, edits, 0, l.offset - 1);
      assert Substitute(front, edits, l.offset - 1) == [text[l.offset - 1]] + Substitute(front, edits, l.offset);
      assert Substitute(front, edits, l.offset) == "";
    }
  }

  // ---------- The edits of --fix ----------

  lemma {:induction false} ZeroBeginsWithZero(code: string)
    requires IsDigits(code) && IntOf(code) == 0
    ensures forall k :: 0 <= k < |code| ==> code[k] == '0'
  {
    if code != "" {
      ZeroBeginsWithZero(code[..|code| - 1]);
    }
  }

  /** Places that a scan found can always be fixed. */
  lemma ScannedIsFixable(texts: map<string, string>, locs: seq<Location>, order: seq<Location>)
    requires Scanned(texts, locs) && IsEditOrder(locs, order)
    ensures Fixable(texts, order)
  {
    forall i | 0 <= i < |order| ensures Editable(texts, order[i]) {
      var l := order[i];
      assert IsEdited(locs, l);
      var k :| 0 <= k < |locs| && locs[k] == l;
      ZeroBeginsWithZero(l.code);
      assert texts[l.file][l.offset] == l.code[0];
    }
    forall i, j | 0 <= i < j < |order| ensures !SamePlace(order[i], order[j]) {
      assert IsEdited(locs, order[i]) && IsEdited(locs, order[j]) && LocLess(order[j], order[i]);
      SamePlaceIsSame(texts, locs, order[i], order[j]);
      LocLessIsIrreflexive(order[i]);
    }
  }

  lemma LocLessIsIrreflexive(l: Location)
    ensures !LocLess(l, l)
  {
    LessIsTotal(l.code, l.code);
  }

  lemma SamePlaceIsSame(texts: map<string, string>, locs: seq<Location>, a: Location, b: Location)
    requires Scanned(texts, locs) && a in locs && b in locs
    ensures SamePlace(a, b) <==> a == b
  {
  }

  lemma ScannedBeginsNumeral(texts: map<string, string>, locs: seq<Location>, l: Location)
    requires Scanned(texts, locs) && l in locs
    ensures l.file in texts && l.offset < |texts[l.file]|
    ensures var text := texts[l.file]; IsDigit(text[l.offset]) && (l.offset > 0 ==> !IsDigit(text[l.offset - 1]))
  {
    var j :| 0 <= j < |locs| && locs[j] == l;
    assert texts[l.file][l.offset] == l.code[0];
  }

  lemma EditsAtNumerals(texts: map<string, string>, locs: seq<Location>, order: seq<Location>, file: string, next: nat)
    requires Scanned(texts, locs) && IsEditOrder(locs, order) && file in texts
    ensures AtNumerals(texts[file], EditsFor(order, file, next))
  {
    var text := texts[file];
    forall k | k in EditsFor(order, file, next) ensures k < |text| && IsDigit(text[k]) && (k > 0 ==> !IsDigit(text[k - 1])) {
      EditsForMembers(order, file, next, k);
      var i :| 0 <= i < |order| && order[i].file == file && order[i].offset == k;
      assert IsEdited(locs, order[i]);
      ScannedBeginsNumeral(texts, locs, order[i]);
    }
  }

  /** The code that a scan finds at the place of `l` after --fix. */
  ghost function FixedCode(texts: map<string, string>, order: seq<Location>, next: nat, l: Location): string
    requires l.file in texts
  {
    CodeAfter(texts[l.file], EditsFor(order, l.file, next), l)
  }

  /** After --fix the i-th edited place holds the code handed out and the digits that followed the zero replaced. */
  lemma EditedCode(texts: map<string, string>, locs: seq<Location>, order: seq<Location>, next: nat, i: nat)
    requires Scanned(texts, locs) && IsEditOrder(locs, order) && i < |order|
    ensures order[i].file in texts && order[i].code != ""
    ensures FixedCode(texts, order, next, order[i]) == Str(next + i) + order[i].code[1..]
  {
    var l := order[i];
    assert IsEdited(locs, l);
    var k :| 0 <= k < |locs| && locs[k] == l;
    ScannedIsFixable(texts, locs, order);
    EditsForAt(order, next, i);
    EditsAtNumerals(texts, locs, order, l.file, next);
    CodeAfterEdits(texts[l.file], EditsFor(order, l.file, next), l);
  }

  /** Every other code stays as it was. */
  lemma OtherCode(texts: map<string, string>, locs: seq<Location>, order: seq<Location>, next: nat, l: Location)
    requires Scanned(texts, locs) && IsEditOrder(locs, order) && l in locs && l !in order
    ensures l.file in texts && FixedCode(texts, order, next, l) == l.code
  {
    var k :| 0 <= k < |locs| && locs[k] == l;
    EditsAtNumerals(texts, locs, order, l.file, next);
    EditsForMembers(order, l.file, next, l.offset);
    if l.offset in EditsFor(order, l.file, next) {
      var i :| 0 <= i < |order| && order[i].file == l.file && order[i].offset == l.offset;
      assert IsEdited(locs, order[i]);
      SamePlaceIsSame(texts, locs, order[i], l);
      assert false;
    }
    CodeAfterEdits(texts[l.file], EditsFor(order, l.file, next), l);
  }

  /** Replacing the first digit of a zero by a numeral multiplies it by ten for each further digit. */
  lemma FirstDigitReplaced(value: nat, code: string)
    requires IsDigits(code) && code != "" && IntOf(code) == 0
    ensures var s := Str(value) + code[1..]; IsDigits(s) && IntOf(s) == value * Pow10(|code| - 1)
  {
    ZeroBeginsWithZero(code);
    ZerosAreZero(code[1..]);
    IntOfShifted(Str(value), code[1..]);
    IntOfStr(value);
  }

  lemma PrefixIsAll(a: string, b: string)
    ensures a + b == a <==> b == ""
  {
    assert |a + b| == |a| + |b|;
    assert a + "" == a;
  }

  /** The code found at an edited place is the one handed out exactly if the code replaced was a single digit. */
  lemma HandedOutIsFound(texts: map<string, string>, locs: seq<Location>, order: seq<Location>, next: nat, i: nat)
    requires Scanned(texts, locs) && IsEditOrder(locs, order) && i < |order|
    ensures var l := order[i];
            && l.file in texts && l.code != "" && IsDigits(FixedCode(texts, order, next, l))
            && (FixedCode(texts, order, next, l) == Str(next + i) <==> |l.code| == 1)
            && IntOf(FixedCode(texts, order, next, l)) == (next + i) * Pow10(|l.code| - 1)
  {
    assert IsEdited(locs, order[i]);
    EditedCode(texts, locs, order, next, i);
    FirstDigitReplaced(next + i, order[i].code);
    PrefixIsAll(Str(next + i), order[i].code[1..]);
  }

  lemma {:induction false} ZerosAreZero(s: string)
    requires forall k :: 0 <= k < |s| ==> s[k] == '0'
    ensures IsDigits(s) && IntOf(s) == 0
  {
    if s != "" {
      ZerosAreZero(s[..|s| - 1]);
    }
  }

  /** A repeated "00" keeps its second zero: handed out 7, the file then says "70". */
  lemma SecondZeroIsKept()
    ensures Substitute("00", map[0 := Str(7)], 0) == "70"
  {
  }

  // ---------- Scanning again ----------

  lemma {:induction false} LeadingDigitsShape(s: string)
    ensures var d := LeadingDigits(s); IsDigits(d) && d <= s && (|d| < |s| ==> !IsDigit(s[|d|]))
  {
    if s != "" && IsDigit(s[0]) {
      LeadingDigitsShape(s[1..]);
      assert s == [s[0]] + s[1..];
    }
  }

  /** Where a scan finds the code of `l` after --fix. */
  ghost function MovedOffset(texts: map<string, string>, order: seq<Location>, next: nat, l: Location): nat
    requires l.file in texts && l.offset <= |texts[l.file]|
  {
    |Substitute(texts[l.file][..l.offset], EditsFor(order, l.file, next), 0)|
  }

  /** `l'` is `l` as a scan finds it after --fix, with whatever text it matched. */
  ghost predicate IsRescanned(texts: map<string, string>, order: seq<Location>, next: nat, l: Location, l': Location)
    requires l.file in texts && l.offset <= |texts[l.file]|
  {
    l'.file == l.file && l'.offset == MovedOffset(texts, order, next, l) && l'.code == FixedCode(texts, order, next, l)
  }

  lemma NumeralIsCode(before: string, tail: string, file: string, lines: string)
    requires (before != "" ==> !IsDigit(before[|before| - 1])) && LeadingDigits(tail) != ""
    ensures IsCodeAt(before + tail, Location(file, |before|, lines, LeadingDigits(tail)))
  {
    LeadingDigitsShape(tail);
    var code, text := LeadingDigits(tail), before + tail;
    assert text[|before|..|before| + |code|] == tail[..|code|] == code;
  }

  lemma FixedCodeIsThere(texts: map<string, string>, locs: seq<Location>, order: seq<Location>, next: nat, l: Location)
    requires Scanned(texts, locs) && IsEditOrder(locs, order) && l in locs
    ensures l.file in texts && FixedCode(texts, order, next, l) != ""
  {
    var k :| 0 <= k < |locs| && locs[k] == l;
    if l in order {
      var i :| 0 <= i < |order| && order[i] == l;
      EditedCode(texts, locs, order, next, i);
    } else {
      OtherCode(texts, locs, order, next, l);
    }
  }

  /** At that place the fixed file has that code. */
  lemma RescannedIsThere(original: map<string, string>, texts: map<string, string>, locs: seq<Location>,
                         order: seq<Location>, next: nat, l: Location, l': Location)
    requires Scanned(original, locs) && IsEditOrder(locs, order) && AllSubstituted(original, texts, order, next) && l in locs
    requires l.file in original && l.offset <= |original[l.file]| && IsRescanned(original, order, next, l, l')
    ensures l'.file in texts && IsCodeAt(texts[l'.file], l')
  {
    var k :| 0 <= k < |locs| && locs[k] == l;
    var text, edits := original[l.file], EditsFor(order, l.file, next);
    EditsAtNumerals(original, locs, order, l.file, next);
    PlaceAfterEdits(text, edits, l);
    FixedCodeIsThere(original, locs, order, next, l);
    NumeralIsCode(Substitute(text[..l.offset], edits, 0), Substitute(text, edits, l.offset), l.file, l'.lines);
  }

  /** Codes stay in their order, since no edit is empty. */
  lemma LaterIsLater(text: string, edits: map<nat, string>, a: nat, b: nat)
    requires a < b <= |text| && forall k :: k in edits ==> edits[k] != ""
    ensures |Substitute(text[..a], edits, 0)| < |Substitute(text[..b], edits, 0)|
  {
    SubstituteSplit(text[..b], edits, 0, a);
    assert text[..b][..a] == text[..a];
  }

  lemma RescannedApart(original: map<string, string>, locs: seq<Location>, order: seq<Location>, next: nat, i: nat, j: nat)
    requires Scanned(original, locs) && i < j < |locs|
    ensures locs[i].file == locs[j].file ==> MovedOffset(original, order, next, locs[i]) != MovedOffset(original, order, next, locs[j])
  {
    var a, b := locs[i], locs[j];
    if a.file == b.file {
      var edits := EditsFor(order, a.file, next);
      forall k | k in edits ensures edits[k] != "" {
        EditsForMembers(order, a.file, next, k);
      }
      if a.offset < b.offset {
        LaterIsLater(original[a.file], edits, a.offset, b.offset);
      } else {
        LaterIsLater(original[a.file], edits, b.offset, a.offset);
      }
    }
  }

  /** The first scan with every location moved and recoded. */
  ghost predicate IsRescan(original: map<string, string>, locs: seq<Location>, order: seq<Location>, next: nat, again: seq<Location>)
    requires Scanned(original, locs)
  {
    |again| == |locs| && forall i :: 0 <= i < |locs| ==> IsRescanned(original, order, next, locs[i], again[i])
  }

  /** That is a scan of the fixed files. */
  lemma RescanScans(original: map<string, string>, texts: map<string, string>, locs: seq<Location>,
                    order: seq<Location>, next: nat, again: seq<Location>)
    requires Scanned(original, locs) && IsEditOrder(locs, order) && AllSubstituted(original, texts, order, next)
    requires IsRescan(original, locs, order, next, again)
    ensures Scanned(texts, again)
  {
    forall i | 0 <= i < |again| ensures again[i].file in texts && IsCodeAt(texts[again[i].file], again[i]) {
      RescannedIsThere(original, texts, locs, order, next, locs[i], again[i]);
    }
    forall i, j | 0 <= i < j < |again| ensures !SamePlace(again[i], again[j]) {
      RescannedApart(original, locs, order, next, i, j);
    }
  }

  // ---------- What --fix promises ----------

  /** Every zero code is spelled "0". */
  ghost predicate PlainZeros(locs: seq<Location>)
    requires Numeric(locs)
  {
    forall i :: 0 <= i < |locs| && IntOf(locs[i].code) == 0 ==> locs[i].code == "0"
  }

  lemma StrSnoc(n: nat, d: nat)
    requires n >= 1 && d < 10
    ensures Str(10 * n + d) == Str(n) + [Digit(d)]
  {
    assert (10 * n + d) / 10 == n && (10 * n + d) % 10 == d;
  }

  lemma {:induction false} NumeralIsStr(s: string)
    requires IsDigits(s) && s != "" && s[0] != '0'
    ensures IntOf(s) >= 1 && Str(IntOf(s)) == s
  {
    var front, d := s[..|s| - 1], s[|s| - 1] as int - '0' as int;
    assert s == front + [s[|s| - 1]] && Digit(d) == s[|s| - 1];
    if front == "" {
      assert IntOf(s) == d && Str(d) == [Digit(d)];
    } else {
      NumeralIsStr(front);
      StrSnoc(IntOf(front), d);
    }
  }

  /** Two numerals without a zero in front are equal exactly if their values are. */
  lemma NumeralsByValue(s: string, t: string)
    requires IsDigits(s) && s != "" && s[0] != '0' && IsDigits(t) && t != "" && t[0] != '0'
    ensures s == t <==> IntOf(s) == IntOf(t)
  {
    NumeralIsStr(s);
    NumeralIsStr(t);
  }

  /** The number found at the i-th edited place: the code handed out, times ten for each further digit. */
  function Number(order: seq<Location>, next: nat, i: nat): nat
    requires i < |order|
  {
    (next + i) * if order[i].code == "" then 1 else Pow10(|order[i].code| - 1)
  }

  /** What is found at the place of a scanned location. */
  ghost predicate IsFound(order: seq<Location>, next: nat, l: Location, code: string, i: nat) {
    if l in order then
      && i < |order| && order[i] == l && IsDigits(code) && code != "" && code[0] != '0' && IntOf(code) == Number(order, next, i)
      && (code == Str(next + i) <==> |l.code| == 1)
    else code == l.code
  }

  lemma FoundCode(texts: map<string, string>, locs: seq<Location>, order: seq<Location>, next: nat, l: Location) returns (i: nat)
    requires Scanned(texts, locs) && IsEditOrder(locs, order) && next >= 1 && l in locs
    ensures l.file in texts && IsFound(order, next, l, FixedCode(texts, order, next, l), i)
  {
    i := 0;
    if l in order {
      i :| 0 <= i < |order| && order[i] == l;
      EditedCode(texts, locs, order, next, i);
      HandedOutIsFound(texts, locs, order, next, i);
    } else {
      OtherCode(texts, locs, order, next, l);
    }
  }

  /** Every zero code is replaced by just the code handed out for it if and only if zeros are spelled "0". */
  lemma ZerosReplacedExactly(texts: map<string, string>, locs: seq<Location>, order: seq<Location>, next: nat)
    requires Numeric(locs) && Scanned(texts, locs) && IsEditOrder(locs, order) && IsNext(locs, next)
    ensures (forall k :: 0 <= k < |locs| && IntOf(locs[k].code) == 0 ==> IsReplaced(texts, order, next, locs[k])) <==> PlainZeros(locs)
  {
    forall k | 0 <= k < |locs| && IntOf(locs[k].code) == 0
      ensures IsReplaced(texts, order, next, locs[k]) <==> locs[k].code == "0"
    {
      ReplacedExactly(texts, locs, order, next, locs[k]);
    }
  }

  lemma ReplacedExactly(texts: map<string, string>, locs: seq<Location>, order: seq<Location>, next: nat, l: Location)
    requires Scanned(texts, locs) && IsEditOrder(locs, order) && next >= 1
    requires l in locs && IsDigits(l.code) && IntOf(l.code) == 0
    ensures l.file in texts && (IsReplaced(texts, order, next, l) <==> l.code == "0")
  {
    var i := FoundCode(texts, locs, order, next, l);
    assert l in order <==> IsEdited(locs, l);
    ZeroBeginsWithZero(l.code);
    if IsReplaced(texts, order, next, l) {
      var k: nat :| k < |order| && order[k] == l && FixedCode(texts, order, next, l) == Str(next + k);
      HandedOutIsFound(texts, locs, order, next, k);
    }
  }

  ghost predicate IsReplaced(texts: map<string, string>, order: seq<Location>, next: nat, l: Location)
    requires l.file in texts
  {
    exists i: nat :: i < |order| && order[i] == l && FixedCode(texts, order, next, l) == Str(next + i)
  }

  /** Two places that are edited to the same number. */
  ghost predicate Collide(order: seq<Location>, next: nat, a: nat, b: nat) {
    a < |order| && b < |order| && a != b && Number(order, next, a) == Number(order, next, b)
  }

  /** After --fix two places hold the same code. */
  ghost predicate SameFound(order: seq<Location>, next: nat, l: Location, a: nat, m: Location, b: nat)
    requires IsDigits(l.code)
  {
    (l.code == m.code && IntOf(l.code) != 0) || (l in order && m in order && Collide(order, next, a, b))
  }

  lemma FoundApart(locs: seq<Location>, order: seq<Location>, next: nat, l: Location, x: string, a: nat, m: Location, y: string, b: nat)
    requires IsEditOrder(locs, order) && next >= 1 && l in locs && m in locs && l != m && IsDigits(l.code) && IsDigits(m.code)
    requires IntOf(l.code) < next && IntOf(m.code) < next && (l.code == m.code ==> |WithCode(locs, l.code)| >= 2)
    requires IsFound(order, next, l, x, a) && IsFound(order, next, m, y, b)
    ensures x == y <==> SameFound(order, next, l, a, m, b)
    ensures x != "0" && y != "0"
  {
    assert (l in order <==> IsEdited(locs, l)) && (m in order <==> IsEdited(locs, m));
    ZerosAreZero("0");
    if l in order {
      NumberIsLarge(order, next, a);
      if m in order {
        NumeralsByValue(x, y);
      }
    }
    if m in order {
      NumberIsLarge(order, next, b);
    }
  }

  lemma NumberIsLarge(order: seq<Location>, next: nat, i: nat)
    requires i < |order|
    ensures Number(order, next, i) >= next
  {
    var p := if order[i].code == "" then 1 else Pow10(|order[i].code| - 1);
    assert (next + i) * p >= next + i;
  }

  /**
   After --fix two places have the same code exactly if they had the same code before and it was not zero, or
   if both were edited and their numbers happen to coincide.
   */
  lemma FixSeparates(texts: map<string, string>, locs: seq<Location>, order: seq<Location>, next: nat, i: nat, j: nat)
    returns (a: nat, b: nat)
    requires Numeric(locs) && Scanned(texts, locs) && IsEditOrder(locs, order) && IsNext(locs, next) && i < j < |locs|
    ensures locs[i] in order ==> a < |order| && order[a] == locs[i]
    ensures locs[j] in order ==> b < |order| && order[b] == locs[j]
    ensures FixedCode(texts, order, next, locs[i]) == FixedCode(texts, order, next, locs[j]) <==>
            SameFound(order, next, locs[i], a, locs[j], b)
    ensures FixedCode(texts, order, next, locs[i]) != "0" && FixedCode(texts, order, next, locs[j]) != "0"
  {
    a := FoundCode(texts, locs, order, next, locs[i]);
    b := FoundCode(texts, locs, order, next, locs[j]);
    assert locs[i] != locs[j] by {
      assert !SamePlace(locs[i], locs[j]);
    }
    if locs[i].code == locs[j].code {
      TwiceIsTwo(locs, i, j);
    }
    FoundApart(locs, order, next, locs[i], FixedCode(texts, order, next, locs[i]), a,
               locs[j], FixedCode(texts, order, next, locs[j]), b);
  }

  /** No two codes are equal and none is "0". */
  ghost predicate NothingWrong(locs: seq<Location>) {
    (forall i: nat, j: nat :: !Clash(locs, i, j)) && forall l :: l in locs ==> l.code != "0"
  }

  /** No two locations share a code that is not zero: the errors that --fix does not touch. */
  ghost predicate OthersDistinct(locs: seq<Location>)
    requires Numeric(locs)
  {
    forall i: nat, j: nat :: Clash(locs, i, j) ==> IntOf(locs[i].code) == 0
  }

  ghost predicate NumbersDistinct(order: seq<Location>, next: nat) {
    forall a: nat, b: nat :: !Collide(order, next, a, b)
  }

  /** Different places in the order are different locations. */
  lemma OrderIsInjective(order: seq<Location>, a: nat, b: nat)
    requires StrictlyFalling(order) && a < |order| && b < |order| && order[a] == order[b]
    ensures a == b
  {
    LocLessIsIrreflexive(order[a]);
  }

  lemma CollisionClashes(texts: map<string, string>, locs: seq<Location>, order: seq<Location>, next: nat, again: seq<Location>,
                         a: nat, b: nat) returns (i: nat, j: nat)
    requires Numeric(locs) && Scanned(texts, locs) && IsEditOrder(locs, order) && IsNext(locs, next)
    requires IsRescan(texts, locs, order, next, again) && Collide(order, next, a, b)
    ensures Clash(again, i, j)
  {
    assert IsEdited(locs, order[a]) && IsEdited(locs, order[b]);
    i :| 0 <= i < |locs| && locs[i] == order[a];
    j :| 0 <= j < |locs| && locs[j] == order[b];
    var x, y := a, b;
    if j < i {
      i, j, x, y := j, i, b, a;
    }
    if i == j {
      OrderIsInjective(order, a, b);
    }
    var a', b' := FixSeparates(texts, locs, order, next, i, j);
    OrderIsInjective(order, a', x);
    OrderIsInjective(order, b', y);
    assert IsRescanned(texts, order, next, locs[i], again[i]) && IsRescanned(texts, order, next, locs[j], again[j]);
  }

  lemma NoneIsZero(texts: map<string, string>, locs: seq<Location>, order: seq<Location>, next: nat, l: Location)
    requires Scanned(texts, locs) && IsEditOrder(locs, order) && next >= 1 && l in locs
    ensures l.file in texts && FixedCode(texts, order, next, l) != "0"
  {
    var i := FoundCode(texts, locs, order, next, l);
    assert l in order <==> IsEdited(locs, l);
    ZerosAreZero("0");
  }

  /**
   A scan after --fix finds nothing wrong exactly if no code other than zero was repeated and the numbers left at
   the edited places are distinct.
   */
  lemma FixedScan(texts: map<string, string>, locs: seq<Location>, order: seq<Location>, next: nat, again: seq<Location>)
    requires Numeric(locs) && Scanned(texts, locs) && IsEditOrder(locs, order) && IsNext(locs, next)
    requires IsRescan(texts, locs, order, next, again)
    ensures NothingWrong(again) <==> OthersDistinct(locs) && NumbersDistinct(order, next)
  {
    forall i: nat, j: nat
      ensures Clash(locs, i, j) && IntOf(locs[i].code) != 0 ==> Clash(again, i, j)
      ensures OthersDistinct(locs) && NumbersDistinct(order, next) ==> !Clash(again, i, j)
    {
      if i < j < |locs| {
        var a, b := FixSeparates(texts, locs, order, next, i, j);
        assert IsRescanned(texts, order, next, locs[i], again[i]) && IsRescanned(texts, order, next, locs[j], again[j]);
        assert OthersDistinct(locs) ==> !(Clash(locs, i, j) && IntOf(locs[i].code) != 0);
      }
    }
    forall l | l in again ensures l.code != "0" {
      var i :| 0 <= i < |again| && again[i] == l;
      assert IsRescanned(texts, order, next, locs[i], again[i]);
      NoneIsZero(texts, locs, order, next, locs[i]);
    }
    forall a: nat, b: nat | Collide(order, next, a, b) ensures exists i: nat, j: nat :: Clash(again, i, j) {
      var i, j := CollisionClashes(texts, locs, order, next, again, a, b);
    }
  }

  /** Zeros spelled "0" get distinct numbers: the codes handed out. */
  lemma PlainNumbersDistinct(locs: seq<Location>, order: seq<Location>, next: nat)
    requires Numeric(locs) && IsEditOrder(locs, order) && PlainZeros(locs)
    ensures NumbersDistinct(order, next)
  {
    forall i | 0 <= i < |order| ensures Number(order, next, i) == next + i {
      assert IsEdited(locs, order[i]);
      assert Pow10(0) == 1;
    }
  }

  /** A "00" that is handed 1 becomes "10", the code that the tenth place is handed. */
  lemma NumbersMayCollide(order: seq<Location>)
    requires |order| >= 10 && order[0].code == "00" && order[9].code == "0"
    ensures Collide(order, 1, 0, 9)
  {
    assert Pow10(1) == 10 * Pow10(0) && Pow10(0) == 1;
  }

  // ---------- A line that cannot be shown ----------

  /** A line end of the other kind before the only line makes the line's number too large. */
  lemma OtherBreakHidesLine(c: char, a: string, b: string)
    requires IsOtherBreak(c) && '\n' !in a && '\n' !in b
    ensures !HasLine([c] + a + b + "\n", 1 + |a|)
  {
    var front := [c] + a + b;
    var text := front + "\n";
    assert text[..1 + |a|] == [c] + a && ([c] + a)[0] == c;
    LinesWithFront(front, "\n");
    assert "\n"[1..] == "" && |LinesOf("\n", false)| == 1;
  }

  /**
   A file that holds a form feed and one assertion, say "uassert(0);": the scan finds the place and it is a zero,
   but --fix cannot show its line and stops there.
   */
  lemma FormFeedStopsFix(macro: string)
    requires '\n' !in macro
    ensures var before, l := macro + "(", Location("f", |macro| + 2, macro + "(0", "0");
            var text := ['\U{c}'] + before + "0);" + "\n";
            IsCodeAt(text, l) && Editable(map["f" := text], l) && !LineShown(map["f" := text], l)
  {
    OtherBreakHidesLine('\U{c}', macro + "(", "0);");
    var text, at := ['\U{c}'] + (macro + "(") + "0);" + "\n", |macro| + 2;
    assert text[at - 1] == '(' && text[at] == '0' && text[at + 1] == ')';
    assert text[at..at + 1] == "0";
  }

  // ---------- The command ----------

  /**
   How the command ends: with nothing to report, with a list of errors, with the TypeError of the next code,
   with the files fixed, or with an exception over a file: it is missing, a line of it cannot be shown, or it does
   not have a zero where one is to be replaced.
   */
  datatype Ending = Clean | Listed | NoNextCode | Fixed | BadFile

  /** The files in which something is reported can be read. */
  ghost predicate Readable(texts: map<string, string>, locs: seq<Location>) {
    forall l :: l in locs && (|WithCode(locs, l.code)| >= 2 || l.code == "0") ==> l.file in texts
  }

  /** The scan, up to where each error is looked up in its file to be printed; `readable` is false if one is missing. */
  method ScanCodes(tree: SourceTree, locs: seq<Location>) returns (codes: seq<Location>, errors: seq<Location>, readable: bool)
    requires Numeric(locs)
    ensures codes == locs && (errors == [] <==> NothingWrong(locs))
    ensures Numeric(errors) && IsEditOrder(locs, Descending(ZeroErrors(errors)))
    ensures (readable <==> Readable(tree.texts, locs)) && (readable <==> FilesKnown(tree.texts, errors))
  {
    var scan := new Scan([]);
    errors := scan.ReadErrorCodes(locs);
    codes := scan.codes;
    NothingReported(locs, errors);
    EditedExactly(locs, errors);
    ReadableReports(tree.texts, locs, errors);
    readable := forall i :: 0 <= i < |errors| ==> errors[i].file in tree.texts;
  }

  lemma ReadableReports(texts: map<string, string>, locs: seq<Location>, errors: seq<Location>)
    requires forall l :: multiset(errors)[l] == Reports(locs, l)
    ensures Readable(texts, locs) <==> FilesKnown(texts, errors)
  {
    forall l ensures l in errors <==> l in locs && (|WithCode(locs, l.code)| >= 2 || l.code == "0") {
      ReportedExactly(locs, errors, l);
    }
  }

  /** What a second scan of the fixed files finds. */
  ghost predicate IsFixed(original: map<string, string>, texts: map<string, string>, locs: seq<Location>, order: seq<Location>, next: nat)
    requires Numeric(locs)
  {
    Scanned(original, locs) ==>
      forall again :: IsRescan(original, locs, order, next, again) ==>
        Scanned(texts, again) && (NothingWrong(again) <==> OthersDistinct(locs) && NumbersDistinct(order, next))
  }

  lemma SubstitutedIsFixed(original: map<string, string>, texts: map<string, string>, locs: seq<Location>, order: seq<Location>, next: nat)
    requires Numeric(locs) && IsEditOrder(locs, order) && IsNext(locs, next) && AllSubstituted(original, texts, order, next)
    ensures IsFixed(original, texts, locs, order, next)
  {
    if Scanned(original, locs) {
      forall again | IsRescan(original, locs, order, next, again)
        ensures Scanned(texts, again) && (NothingWrong(again) <==> OthersDistinct(locs) && NumbersDistinct(order, next))
      {
        RescanScans(original, texts, locs, order, next, again);
        FixedScan(original, locs, order, next, again);
      }
    }
  }

  lemma NothingSubstituted(texts: map<string, string>, order: seq<Location>, next: nat)
    ensures AllSubstituted(texts, texts, order[..0], next)
  {
    forall f | f in texts ensures texts[f] == Substitute(texts[f], map[], 0) {
      SubstituteNothing(texts[f], 0);
    }
  }

  /** The branch of the command that edits the files. */
  method FixCodes(tree: SourceTree, locs: seq<Location>, errors: seq<Location>, next: nat) returns (ok: bool, ghost done: nat)
    requires Numeric(locs) && Numeric(errors) && IsNext(locs, next) && FilesKnown(tree.texts, errors)
    requires IsEditOrder(locs, Descending(ZeroErrors(errors)))
    modifies tree
    ensures ok <==> Replaceable(old(tree.texts), Descending(ZeroErrors(errors)))
    ensures done <= |Descending(ZeroErrors(errors))| && (ok ==> done == |Descending(ZeroErrors(errors))|)
    ensures AllSubstituted(old(tree.texts), tree.texts, Descending(ZeroErrors(errors))[..done], next)
    ensures ok ==> IsFixed(old(tree.texts), tree.texts, locs, Descending(ZeroErrors(errors)), next)
  {
    ok, done := tree.ReplaceBadCodes(errors, next);
    if ok {
      ghost var order := Descending(ZeroErrors(errors));
      assert order[..done] == order;
      SubstitutedIsFixed(old(tree.texts), tree.texts, locs, order, next);
    }
  }

  /** On what a scan found, only a line that cannot be shown stops the command. */
  lemma ScannedFailsByLines(texts: map<string, string>, locs: seq<Location>, order: seq<Location>)
    requires Scanned(texts, locs) && IsEditOrder(locs, order)
    ensures Readable(texts, locs) && (Replaceable(texts, order) <==> LinesShown(texts, order))
  {
    ScannedIsFixable(texts, locs, order);
  }

  /**
   `quiet` and `replace` are the options -q and --fix; `locs` is what the source files are parsed to. `done` of the
   edits in `order` have been made when the command ends.
   */
  method CheckCodes(tree: SourceTree, locs: seq<Location>, quiet: bool, replace: bool)
    returns (ending: Ending, ghost order: seq<Location>, ghost next: nat, ghost done: nat)
    requires Numeric(locs)
    modifies tree
    ensures ending.Clean? <==> NothingWrong(locs) && (quiet || |locs| >= 2)
    ensures ending.NoNextCode? <==> |locs| < 2 && !(quiet && NothingWrong(locs)) && Readable(old(tree.texts), locs)
    ensures ending.Listed? <==> !replace && |locs| >= 2 && !NothingWrong(locs) && Readable(old(tree.texts), locs)
    ensures ending.Fixed? <==> replace && |locs| >= 2 && !NothingWrong(locs) && Readable(old(tree.texts), locs)
                               && Replaceable(old(tree.texts), order)
    ensures IsEditOrder(locs, order) && (ending.Listed? || ending.Fixed? || done > 0 ==> IsNext(locs, next))
    ensures done <= |order| && AllSubstituted(old(tree.texts), tree.texts, order[..done], next)
    ensures ending.Fixed? ==> done == |order| && IsFixed(old(tree.texts), tree.texts, locs, order, next)
    ensures !ending.Fixed? && !ending.BadFile? ==> tree.texts == old(tree.texts)
    ensures Scanned(old(tree.texts), locs) && ending.BadFile? ==> !LinesShown(old(tree.texts), order)
  {
    done, next := 0, 0;
    var codes, errors, readable := ScanCodes(tree, locs);
    order := Descending(ZeroErrors(errors));
    NothingSubstituted(tree.texts, order, next);
    if Scanned(tree.texts, locs) {
      ScannedFailsByLines(tree.texts, locs, order);
    }
    if !readable {
      return BadFile, order, next, done;
    }
    if errors == [] && quiet {
      return Clean, order, next, done;
    }
    var nextCode := GetNextCode(codes);
    if nextCode.None? {
      return NoNextCode, order, next, done;
    }
    next := nextCode.value;
    NothingSubstituted(tree.texts, order, next);
    if errors == [] {
      return Clean, order, next, done;
    }
    if !replace {
      return Listed, order, next, done;
    }
    var ok;
    ok, done := FixCodes(tree, locs, errors, nextCode.value);
    ending := if ok then Fixed else BadFile;
  }

  /** Of two edited places the one in the earlier file, or earlier in the same file, is handed the larger code. */
  lemma EarlierGetsLarger(locs: seq<Location>, order: seq<Location>, i: nat, j: nat)
    requires IsEditOrder(locs, order) && i < |order| && j < |order|
    requires Less(order[i].file, order[j].file) || (order[i].file == order[j].file && order[i].offset < order[j].offset)
    ensures j < i
  {
    LessIsTotal(order[i].file, order[j].file);
    if i == j {
      LessIsTotal(order[i].file, order[i].file);
    }
  }
}
