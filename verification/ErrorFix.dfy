/** Replacing zero assertion codes in place: buildscripts/errorcodes.py. */
module ErrorFix {
  import opened Sequences
  import opened Text
  import opened ErrorScan
  import opened LineColumn

  // ---------- The next code ----------

  /** int(s) for a string of digits */
  function IntOf(s: string): nat
    requires IsDigits(s)
  {
    if s == "" then 0 else 10 * IntOf(s[..|s| - 1]) + (s[|s| - 1] as int - '0' as int)
  }

  lemma {:induction false} IntOfStr(n: nat)
    ensures IntOf(Str(n)) == n
  {
    if n < 10 {
      assert Str(n)[..0] == "";
    } else {
      IntOfStr(n / 10);
      assert Str(n)[..|Str(n)| - 1] == Str(n / 10);
    }
  }

  ghost predicate Numeric(locs: seq<Location>) {
    forall i :: 0 <= i < |locs| ==> IsDigits(locs[i].code)
  }

  /** The next code is one above the largest code scanned. */
  ghost predicate IsNext(locs: seq<Location>, next: nat)
    requires Numeric(locs)
  {
    && (forall i :: 0 <= i < |locs| ==> IntOf(locs[i].code) < next)
    && (exists i :: 0 <= i < |locs| && next == IntOf(locs[i].code) + 1)
  }

  /** None stands for the TypeError that fewer than two codes lead to. */
  method GetNextCode(codes: seq<Location>) returns (r: Option<nat>)
    requires Numeric(codes)
    ensures r.None? <==> |codes| < 2
    ensures r.Some? ==> IsNext(codes, r.value)
  {
    if |codes| < 2 {
      return None;
    }
    var highest := IntOf(codes[0].code);
    for i := 1 to |codes|
      invariant forall j :: 0 <= j < i ==> IntOf(codes[j].code) <= highest
      invariant exists j :: 0 <= j < i && highest == IntOf(codes[j].code)
    {
      if IntOf(codes[i].code) > highest {
        highest := IntOf(codes[i].code);
      }
    }
    return Some(highest + 1);
  }

  // ---------- The order of the edits ----------

  /** The order of Python tuples (file, offset, lines, code). */
  predicate LocLess(a: Location, b: Location) {
    if a.file != b.file then Less(a.file, b.file)
    else if a.offset != b.offset then a.offset < b.offset
    else if a.lines != b.lines then Less(a.lines, b.lines)
    else Less(a.code, b.code)
  }

  lemma LocLessIsTotal(a: Location, b: Location)
    ensures LocLess(a, b) || a == b || LocLess(b, a)
  {
    LessIsTotal(a.file, b.file);
    LessIsTotal(a.lines, b.lines);
    LessIsTotal(a.code, b.code);
  }

  /** reversed(sorted(set(locs))) */
  function Descending(locs: seq<Location>): seq<Location> {
    if locs == [] then [] else Insert(locs[0], Descending(locs[1..]))
  }

  function Insert(l: Location, sorted: seq<Location>): seq<Location> {
    if sorted == [] || LocLess(sorted[0], l) then [l] + sorted
    else if l == sorted[0] then sorted
    else [sorted[0]] + Insert(l, sorted[1..])
  }

  lemma {:induction false} InsertMembers(l: Location, sorted: seq<Location>, x: Location)
    ensures x in Insert(l, sorted) <==> x == l || x in sorted
  {
    if sorted != [] && !LocLess(sorted[0], l) && l != sorted[0] {
      InsertMembers(l, sorted[1..], x);
      assert sorted == [sorted[0]] + sorted[1..];
    }
  }

  lemma {:induction false} DescendingMembers(locs: seq<Location>, x: Location)
    ensures x in Descending(locs) <==> x in locs
  {
    if locs != [] {
      DescendingMembers(locs[1..], x);
      InsertMembers(locs[0], Descending(locs[1..]), x);
      assert locs == [locs[0]] + locs[1..];
    }
  }

  /** Each entry is below all earlier ones. */
  ghost predicate StrictlyFalling(order: seq<Location>) {
    forall i, j :: 0 <= i < j < |order| ==> LocLess(order[j], order[i])
  }

  /** The last file first, in each file the last place first, and at one place by what was matched and by the code. */
  ghost predicate LastFirst(order: seq<Location>) {
    forall i, j :: 0 <= i < j < |order| ==>
      var a, b := order[j], order[i];
      || Less(a.file, b.file)
      || (a.file == b.file && a.offset < b.offset)
      || (a.file == b.file && a.offset == b.offset && Less(a.lines, b.lines))
      || (a.file == b.file && a.offset == b.offset && a.lines == b.lines && Less(a.code, b.code))
  }

  lemma LocLessIsTransitive(a: Location, b: Location, c: Location)
    requires LocLess(a, b) && LocLess(b, c)
    ensures LocLess(a, c)
  {
    LessIsTotal(a.file, b.file);
    LessIsTotal(b.file, c.file);
    LessIsTotal(a.lines, b.lines);
    LessIsTotal(b.lines, c.lines);
    if a.file != b.file && b.file != c.file {
      LessIsTransitive(a.file, b.file, c.file);
      LessIsTotal(a.file, c.file);
    } else if a.file == b.file == c.file && a.offset == b.offset == c.offset {
      if a.lines != b.lines && b.lines != c.lines {
        LessIsTransitive(a.lines, b.lines, c.lines);
        LessIsTotal(a.lines, c.lines);
      } else if a.lines == b.lines == c.lines {
        LessIsTransitive(a.code, b.code, c.code);
      }
    }
  }

  lemma {:induction false} InsertFalls(l: Location, sorted: seq<Location>)
    requires StrictlyFalling(sorted)
    ensures StrictlyFalling(Insert(l, sorted))
  {
    if sorted == [] {
    } else if LocLess(sorted[0], l) {
      forall j | 0 < j < |sorted| ensures LocLess(sorted[j], l) {
        LocLessIsTransitive(sorted[j], sorted[0], l);
      }
    } else if l != sorted[0] {
      LocLessIsTotal(sorted[0], l);
      InsertFalls(l, sorted[1..]);
      var rest := Insert(l, sorted[1..]);
      forall j | 0 <= j < |rest| ensures LocLess(rest[j], sorted[0]) {
        InsertMembers(l, sorted[1..], rest[j]);
      }
    }
  }

  lemma {:induction false} DescendingFalls(locs: seq<Location>)
    ensures StrictlyFalling(Descending(locs)) && LastFirst(Descending(locs))
  {
    if locs != [] {
      DescendingFalls(locs[1..]);
      InsertFalls(locs[0], Descending(locs[1..]));
    }
  }

  // ---------- Substituting all at once ----------

  /** `text` from position `from` on, with each position in `edits` replaced by its string. */
  function Substitute(text: string, edits: map<nat, string>, from: nat): string
    decreases |text| - from
  {
    if from >= |text| then ""
    else (if from in edits then edits[from] else [text[from]]) + Substitute(text, edits, from + 1)
  }

  lemma {:induction false} SubstituteUntouched(text: string, edits: map<nat, string>, from: nat, to: nat)
    requires from <= to <= |text| && forall k :: from <= k < to ==> k !in edits
    ensures Substitute(text, edits, from) == text[from..to] + Substitute(text, edits, to)
    decreases |text| - from
  {
    if from < to {
      SubstituteUntouched(text, edits, from + 1, to);
      assert text[from..to] == [text[from]] + text[from + 1..to];
    }
  }

  lemma {:induction false} SubstituteSame(text: string, e1: map<nat, string>, e2: map<nat, string>, from: nat)
    requires forall k :: k >= from ==> (k in e1 <==> k in e2) && (k in e1 ==> e1[k] == e2[k])
    ensures Substitute(text, e1, from) == Substitute(text, e2, from)
    decreases |text| - from
  {
    if from < |text| {
      SubstituteSame(text, e1, e2, from + 1);
    }
  }

  /** One edit in place, below all earlier ones, adds one position to the substitution. */
  lemma EditBelow(text: string, edits: map<nat, string>, at: nat, code: string)
    requires at < |text| && forall k :: k in edits ==> k > at
    ensures var now := Substitute(text, edits, 0);
            && at < |now| && now[at] == text[at]
            && now[..at] + code + now[at + 1..] == Substitute(text, edits[at := code], 0)
  {
    var now, edits' := Substitute(text, edits, 0), edits[at := code];
    SubstituteUntouched(text, edits, 0, at + 1);
    SubstituteUntouched(text, edits', 0, at);
    SubstituteSame(text, edits, edits', at + 1);
    assert now == text[0..at + 1] + Substitute(text, edits, at + 1);
    assert now[..at] == text[0..at] && now[at + 1..] == Substitute(text, edits, at + 1);
    ConcatAssociates(text[0..at], code, Substitute(text, edits', at + 1));
  }

  lemma {:induction false} SubstituteNothing(text: string, from: nat)
    requires from <= |text|
    ensures Substitute(text, map[], from) == text[from..]
    decreases |text| - from
  {
    SubstituteUntouched(text, map[], from, |text|);
    assert text[from..|text|] == text[from..];
  }

  // ---------- The edits of one run ----------

  /** The edits that the locations in `order` make to one file: the i-th gets the code next + i. */
  function EditsFor(order: seq<Location>, file: string, next: nat): map<nat, string> {
    if order == [] then map[]
    else
      var front, last := order[..|order| - 1], order[|order| - 1];
      var edits := EditsFor(front, file, next);
      if last.file == file then edits[last.offset := Str(next + |front|)] else edits
  }

  ghost predicate Editable(texts: map<string, string>, l: Location) {
    l.file in texts && l.offset < |texts[l.file]| && texts[l.file][l.offset] == '0'
  }

  predicate SamePlace(a: Location, b: Location) {
    a.file == b.file && a.offset == b.offset
  }

  /** Every location is a '0' in its file, and no two are at the same place. */
  ghost predicate Fixable(texts: map<string, string>, order: seq<Location>) {
    && (forall i :: 0 <= i < |order| ==> Editable(texts, order[i]))
    && (forall i, j :: 0 <= i < j < |order| ==> !SamePlace(order[i], order[j]))
  }

  lemma {:induction false} EditsForMembers(order: seq<Location>, file: string, next: nat, k: nat)
    ensures k in EditsFor(order, file, next) <==> exists i :: 0 <= i < |order| && order[i].file == file && order[i].offset == k
    ensures k in EditsFor(order, file, next) ==>
              exists c: nat :: next <= c < next + |order| && EditsFor(order, file, next)[k] == Str(c)
  {
    if order != [] {
      EditsForMembers(order[..|order| - 1], file, next, k);
    }
  }

  /** The i-th location in the order gets the code next + i. */
  lemma {:induction false} EditsForAt(order: seq<Location>, next: nat, i: nat)
    requires i < |order| && forall j, k :: 0 <= j < k < |order| ==> !SamePlace(order[j], order[k])
    ensures var edits := EditsFor(order, order[i].file, next); order[i].offset in edits && edits[order[i].offset] == Str(next + i)
  {
    if i < |order| - 1 {
      var front := order[..|order| - 1];
      EditsForAt(front, next, i);
      assert !SamePlace(order[i], order[|order| - 1]);
    }
  }

  /** Looking at the current text decides whether the place is a '0' of the original that no edit has touched. */
  lemma EditDecision(text: string, edits: map<nat, string>, at: nat)
    requires forall k :: k in edits ==> at <= k < |text| && edits[k] != "" && edits[k][0] != '0'
    ensures var now := Substitute(text, edits, 0);
            at < |now| && now[at] == '0' <==> at !in edits && at < |text| && text[at] == '0'
  {
    if at in edits {
      SubstituteUntouched(text, edits, 0, at);
      assert Substitute(text, edits, at) == edits[at] + Substitute(text, edits, at + 1);
    } else if at < |text| {
      EditBelow(text, edits, at, "");
    } else {
      SubstituteSame(text, edits, map[], 0);
      SubstituteNothing(text, 0);
    }
  }

  /** The edits made so far are legal and none is below the next location. */
  lemma EditsSoFar(texts: map<string, string>, order: seq<Location>, i: nat, next: nat)
    requires StrictlyFalling(order) && i < |order| && Fixable(texts, order[..i]) && next >= 1 && order[i].file in texts
    ensures var l := order[i]; var edits := EditsFor(order[..i], l.file, next);
            && (forall k :: k in edits ==> l.offset <= k < |texts[l.file]| && edits[k] != "" && edits[k][0] != '0')
            && (l.offset in edits <==> exists j :: 0 <= j < i && SamePlace(order[j], l))
  {
    var l, done := order[i], order[..i];
    var edits := EditsFor(done, l.file, next);
    forall k | k in edits ensures l.offset <= k < |texts[l.file]| && edits[k] != "" && edits[k][0] != '0' {
      EditsForMembers(done, l.file, next, k);
      var j :| 0 <= j < |done| && done[j].file == l.file && done[j].offset == k;
      assert Editable(texts, done[j]) && LocLess(order[i], order[j]);
    }
    EditsForMembers(done, l.file, next, l.offset);
    if j :| 0 <= j < |done| && done[j].file == l.file && done[j].offset == l.offset {
      assert SamePlace(order[j], l);
    }
    if j :| 0 <= j < i && SamePlace(order[j], l) {
      assert done[j].file == l.file && done[j].offset == l.offset;
    }
  }

  /** Every file holds its original text with the edits of `order` substituted all at once. */
  ghost predicate AllSubstituted(original: map<string, string>, texts: map<string, string>, order: seq<Location>, next: nat) {
    texts.Keys == original.Keys &&
    forall f :: f in original ==> texts[f] == Substitute(original[f], EditsFor(order, f, next), 0)
  }

  lemma FixableStep(texts: map<string, string>, order: seq<Location>, i: nat)
    requires i < |order|
    ensures Fixable(texts, order[..i + 1]) <==>
            Fixable(texts, order[..i]) && Editable(texts, order[i]) && !exists j :: 0 <= j < i && SamePlace(order[j], order[i])
  {
  }

  lemma OneMoreEdit(original: map<string, string>, texts: map<string, string>, order: seq<Location>, i: nat, next: nat)
    requires StrictlyFalling(order) && i < |order| && Fixable(original, order[..i]) && next >= 1
    requires AllSubstituted(original, texts, order[..i], next) && order[i].file in texts
    ensures var l := order[i]; var now := texts[l.file];
            && (l.offset < |now| && now[l.offset] == '0' <==> Fixable(original, order[..i + 1]))
            && (l.offset < |now| && now[l.offset] == '0' ==>
                  AllSubstituted(original, texts[l.file := now[..l.offset] + Str(next + i) + now[l.offset + 1..]], order[..i + 1], next))
  {
    var l := order[i];
    EditsSoFar(original, order, i, next);
    EditDecision(original[l.file], EditsFor(order[..i], l.file, next), l.offset);
    FixableStep(original, order, i);
    if Fixable(original, order[..i + 1]) {
      EditAdds(original, texts, order, i, next);
    }
  }

  /** Writing the code of the next place adds its edit to what is substituted. */
  lemma EditAdds(original: map<string, string>, texts: map<string, string>, order: seq<Location>, i: nat, next: nat)
    requires StrictlyFalling(order) && i < |order| && Fixable(original, order[..i + 1]) && next >= 1
    requires AllSubstituted(original, texts, order[..i], next) && order[i].file in texts
    ensures var l := order[i]; var now := texts[l.file];
            && l.offset < |now|
            && AllSubstituted(original, texts[l.file := now[..l.offset] + Str(next + i) + now[l.offset + 1..]], order[..i + 1], next)
  {
    var l, done := order[i], order[..i];
    FixableStep(original, order, i);
    EditsSoFar(original, order, i, next);
    EditBelow(original[l.file], EditsFor(done, l.file, next), l.offset, Str(next + i));
    assert order[..i + 1][..i] == done && order[..i + 1][i] == l;
  }

  function ZeroErrors(errors: seq<Location>): seq<Location>
    requires Numeric(errors)
  {
    if errors == [] then []
    else (if IntOf(errors[0].code) == 0 then [errors[0]] else []) + ZeroErrors(errors[1..])
  }

  // ---------- The lines shown ----------

  /** Before an edit its line is printed: the number counted by splitlines must be one that readlines has. */
  ghost predicate LineShown(texts: map<string, string>, l: Location) {
    l.file in texts && l.offset <= |texts[l.file]| && HasLine(texts[l.file], l.offset)
  }

  ghost predicate LinesShown(texts: map<string, string>, order: seq<Location>) {
    forall i :: 0 <= i < |order| ==> LineShown(texts, order[i])
  }

  /** The edits put digits in place of a zero. */
  ghost predicate DigitsForZeros(text: string, edits: map<nat, string>) {
    forall k :: k in edits ==> k < |text| && text[k] == '0' && edits[k] != "" && '\n' !in edits[k]
  }

  /** Such edits change neither the number of lines nor whether there are any. */
  lemma {:induction false} EditsKeepLines(text: string, edits: map<nat, string>, from: nat)
    requires DigitsForZeros(text, edits) && from <= |text|
    ensures |LinesOf(Substitute(text, edits, from), false)| == |LinesOf(text[from..], false)|
    ensures Substitute(text, edits, from) == "" <==> from == |text|
    decreases |text| - from
  {
    if from < |text| {
      EditsKeepLines(text, edits, from + 1);
      assert text[from..] == [text[from]] + text[from + 1..];
      LinesWithFirst(text[from], text[from + 1..]);
      if from in edits {
        LinesWithFront(edits[from], Substitute(text, edits, from + 1));
      } else {
        LinesWithFirst(text[from], Substitute(text, edits, from + 1));
      }
    }
  }

  /** Edits behind a place do not change whether its line can be shown. */
  lemma EditsKeepShown(text: string, edits: map<nat, string>, at: nat)
    requires DigitsForZeros(text, edits) && at < |text| && forall k :: k in edits ==> k > at
    ensures var now := Substitute(text, edits, 0); at < |now| && (HasLine(now, at) <==> HasLine(text, at))
  {
    var now := Substitute(text, edits, 0);
    SubstituteUntouched(text, edits, 0, at + 1);
    assert now[..at] == text[0..at + 1][..at] == text[..at];
    EditsKeepLines(text, edits, 0);
    assert text[0..] == text;
  }

  /** The current text of a file decides whether the line of the next place can be shown in the original. */
  lemma ShownSoFar(original: map<string, string>, texts: map<string, string>, order: seq<Location>, i: nat, next: nat)
    requires StrictlyFalling(order) && i < |order| && Fixable(original, order[..i + 1]) && next >= 1
    requires AllSubstituted(original, texts, order[..i], next)
    ensures order[i].file in texts && order[i].offset < |texts[order[i].file]|
    ensures HasLine(texts[order[i].file], order[i].offset) <==> LineShown(original, order[i])
  {
    var l, done := order[i], order[..i];
    var edits := EditsFor(done, l.file, next);
    FixableStep(original, order, i);
    EditsSoFar(original, order, i, next);
    forall k | k in edits ensures k < |original[l.file]| && original[l.file][k] == '0' && edits[k] != "" && '\n' !in edits[k] {
      EditsForMembers(done, l.file, next, k);
      var j :| 0 <= j < |done| && done[j].file == l.file && done[j].offset == k;
      assert Editable(original, done[j]);
    }
    EditsKeepShown(original[l.file], edits, l.offset);
  }

  /** Where no other character ends a line, the line of every place can be shown. */
  lemma PlainIsReplaceable(texts: map<string, string>, order: seq<Location>)
    requires Fixable(texts, order)
    requires forall f, k :: f in texts && 0 <= k < |texts[f]| ==> !IsOtherBreak(texts[f][k])
    ensures Replaceable(texts, order)
  {
    forall i | 0 <= i < |order| ensures LineShown(texts, order[i]) {
      assert Editable(texts, order[i]);
      PlainHasLine(texts[order[i].file], order[i].offset);
    }
  }

  // ---------- Editing the files ----------

  ghost predicate FilesKnown(texts: map<string, string>, locs: seq<Location>) {
    forall i :: 0 <= i < |locs| ==> locs[i].file in texts
  }

  /** All that the edits need: known files, a '0' at each place, no place twice, and a line to show. */
  ghost predicate Replaceable(texts: map<string, string>, order: seq<Location>) {
    Fixable(texts, order) && LinesShown(texts, order)
  }

  lemma ReplaceableStep(texts: map<string, string>, order: seq<Location>, i: nat)
    requires i < |order| && Replaceable(texts, order[..i])
    ensures Replaceable(texts, order[..i + 1]) <==> Fixable(texts, order[..i + 1]) && LineShown(texts, order[i])
  {
    assert order[..i + 1] == order[..i] + [order[i]];
  }

  /** The current text decides whether the next place can be replaced; if so, doing it adds one edit. */
  lemma OneMoreReplacement(original: map<string, string>, texts: map<string, string>, order: seq<Location>, i: nat, next: nat)
    requires StrictlyFalling(order) && i < |order| && Replaceable(original, order[..i]) && next >= 1
    requires AllSubstituted(original, texts, order[..i], next) && order[i].file in texts
    ensures var l := order[i]; var now := texts[l.file];
            && (l.offset < |now| && HasLine(now, l.offset) && now[l.offset] == '0' <==> Replaceable(original, order[..i + 1]))
            && (Replaceable(original, order[..i + 1]) ==>
                  AllSubstituted(original, texts[l.file := now[..l.offset] + Str(next + i) + now[l.offset + 1..]], order[..i + 1], next))
  {
    OneMoreEdit(original, texts, order, i, next);
    ReplaceableStep(original, order, i);
    if Fixable(original, order[..i + 1]) {
      ShownSoFar(original, texts, order, i, next);
    }
  }

  class SourceTree {
    var texts: map<string, string>    // the text of each source file

    constructor (texts: map<string, string>)
      ensures this.texts == texts
    {
      this.texts := texts;
    }

    /** The places of the errors that are not replaced are looked up as well; false if a file is missing. */
    method LookUpOthers(errors: seq<Location>) returns (ok: bool)
      requires Numeric(errors)
      ensures ok <==> forall i :: 0 <= i < |errors| && IntOf(errors[i].code) != 0 ==> errors[i].file in texts
    {
      for i := 0 to |errors|
        invariant forall k :: 0 <= k < i && IntOf(errors[k].code) != 0 ==> errors[k].file in texts
      {
        if IntOf(errors[i].code) != 0 {
          if errors[i].file !in texts {
            return false;
          }
          var line, column := GetLineAndColumn(texts[errors[i].file], errors[i].offset);
        }
      }
      return true;
    }

    /**
     One round of the edit loop. `ok` is false if the file is missing, its line cannot be shown or the assertion
     on the character at the offset fails; then nothing is written.
     */
    method ReplaceOne(loc: Location, next: nat,
                      ghost original: map<string, string>, ghost order: seq<Location>, ghost i: nat, ghost nextCode: nat)
      returns (ok: bool)
      requires StrictlyFalling(order) && i < |order| && loc == order[i] && next == nextCode + i && nextCode >= 1
      requires Replaceable(original, order[..i]) && AllSubstituted(original, texts, order[..i], nextCode)
      modifies this
      ensures ok <==> Replaceable(original, order[..i + 1])
      ensures AllSubstituted(original, texts, if ok then order[..i + 1] else order[..i], nextCode)
    {
      if loc.file !in texts {
        assert order[..i + 1][i] == loc;
        return false;
      }
      OneMoreReplacement(original, texts, order, i, nextCode);
      var text := texts[loc.file];
      var line, column := GetLineAndColumn(text, loc.offset);
      if line - 1 >= |LinesOf(text, false)| {
        return false;
      }
      if loc.offset >= |text| || text[loc.offset] != '0' {
        return false;
      }
      texts := texts[loc.file := text[..loc.offset] + Str(next) + text[loc.offset + 1..]];
      return true;
    }

    /** The loop over the edits; `done` is how many were made when it ends or an exception ends it. */
    method ReplaceAll(order: seq<Location>, nextCode: nat) returns (ok: bool, ghost done: nat)
      requires StrictlyFalling(order) && nextCode >= 1
      modifies this
      ensures ok <==> Replaceable(old(texts), order)
      ensures done <= |order| && (ok ==> done == |order|) && AllSubstituted(old(texts), texts, order[..done], nextCode)
    {
      forall f | f in texts ensures texts[f] == Substitute(texts[f], map[], 0) {
        SubstituteNothing(texts[f], 0);
      }
      var next := nextCode;
      done := 0;
      for i := 0 to |order|
        invariant done == i && next == nextCode + i && Replaceable(old(texts), order[..i])
        invariant AllSubstituted(old(texts), texts, order[..i], nextCode)
      {
        ok := ReplaceOne(order[i], next, old(texts), order, i, nextCode);
        if !ok {
          ReplaceablePrefix(old(texts), order, i + 1);
          return;
        }
        next, done := next + 1, done + 1;
      }
      assert order[..|order|] == order;
      ok := true;
    }

    method ReplaceBadCodes(errors: seq<Location>, nextCode: nat) returns (ok: bool, ghost done: nat)
      requires Numeric(errors) && nextCode >= 1
      modifies this
      ensures ok <==> FilesKnown(old(texts), errors) && Replaceable(old(texts), Descending(ZeroErrors(errors)))
      ensures done <= |Descending(ZeroErrors(errors))| && (ok ==> done == |Descending(ZeroErrors(errors))|)
      ensures AllSubstituted(old(texts), texts, Descending(ZeroErrors(errors))[..done], nextCode)
    {
      var order := Descending(ZeroErrors(errors));
      DescendingFalls(ZeroErrors(errors));
      forall f | f in texts ensures texts[f] == Substitute(texts[f], map[], 0) {
        SubstituteNothing(texts[f], 0);
      }
      done := 0;
      ok := LookUpOthers(errors);
      if !ok {
        return;
      }
      FilesOfAll(texts, errors);
      ok, done := ReplaceAll(order, nextCode);
    }
  }

  lemma ReplaceablePrefix(texts: map<string, string>, order: seq<Location>, i: nat)
    requires i <= |order| && !Replaceable(texts, order[..i])
    ensures !Replaceable(texts, order)
  {
    if Fixable(texts, order) && LinesShown(texts, order) {
      assert Fixable(texts, order[..i]) && LinesShown(texts, order[..i]);
    }
  }

  /** If the other errors have their files, all errors have exactly if the edited places do. */
  lemma FilesOfAll(texts: map<string, string>, errors: seq<Location>)
    requires Numeric(errors) && forall i :: 0 <= i < |errors| && IntOf(errors[i].code) != 0 ==> errors[i].file in texts
    ensures FilesKnown(texts, errors) <==> FilesKnown(texts, Descending(ZeroErrors(errors)))
  {
    var order := Descending(ZeroErrors(errors));
    forall i | 0 <= i < |errors| && IntOf(errors[i].code) == 0 ensures errors[i] in order {
      ZeroErrorsMembers(errors, errors[i]);
      DescendingMembers(ZeroErrors(errors), errors[i]);
    }
    forall i | 0 <= i < |order| ensures order[i] in errors {
      DescendingMembers(ZeroErrors(errors), order[i]);
      ZeroErrorsMembers(errors, order[i]);
    }
  }

  /** The codes written are pairwise distinct and larger than every code in use. */
  lemma FixWritesFreshCodes(texts: map<string, string>, order: seq<Location>, codes: seq<Location>, next: nat, i: nat, j: nat)
    requires Fixable(texts, order) && i < |order| && j < |order|
    requires Numeric(codes) && forall k :: 0 <= k < |codes| ==> IntOf(codes[k].code) < next
    ensures var a, b := EditsFor(order, order[i].file, next), EditsFor(order, order[j].file, next);
            && order[i].offset in a && order[j].offset in b
            && (a[order[i].offset] == b[order[j].offset] <==> i == j)
            && IsDigits(a[order[i].offset])
            && forall k :: 0 <= k < |codes| ==> IntOf(a[order[i].offset]) > IntOf(codes[k].code)
  {
    EditsForAt(order, next, i);
    EditsForAt(order, next, j);
    StrIsInjective(next + i, next + j);
    IntOfStr(next + i);
  }

  lemma StrIsInjective(m: nat, n: nat)
    ensures Str(m) == Str(n) <==> m == n
  {
    IntOfStr(m);
    IntOfStr(n);
  }

  // ---------- What --fix edits ----------

  lemma {:induction false} ZeroErrorsMembers(errors: seq<Location>, l: Location)
    requires Numeric(errors)
    ensures l in ZeroErrors(errors) <==> l in errors && IsDigits(l.code) && IntOf(l.code) == 0
  {
    if errors != [] {
      ZeroErrorsMembers(errors[1..], l);
      assert errors == [errors[0]] + errors[1..];
    }
  }

  /** A scanned code that is zero and is reported: it is "0", or occurs twice or more. */
  ghost predicate IsEdited(locs: seq<Location>, l: Location) {
    l in locs && IsDigits(l.code) && IntOf(l.code) == 0 && (l.code == "0" || |WithCode(locs, l.code)| >= 2)
  }

  /** The edits cover exactly those, downwards. */
  ghost predicate IsEditOrder(locs: seq<Location>, order: seq<Location>) {
    StrictlyFalling(order) && LastFirst(order) && forall l :: l in order <==> IsEdited(locs, l)
  }

  /**
   Of the locations scanned, --fix edits those with code "0", and those with a code that is zero in
   another spelling only if that spelling occurs twice or more.
   */
  lemma {:induction false} EditedExactly(locs: seq<Location>, reported: seq<Location>)
    requires Numeric(locs) && forall l :: multiset(reported)[l] == Reports(locs, l)
    ensures Numeric(reported) && IsEditOrder(locs, Descending(ZeroErrors(reported)))
  {
    forall i | 0 <= i < |reported| ensures reported[i] in locs {
      ReportedExactly(locs, reported, reported[i]);
    }
    DescendingFalls(ZeroErrors(reported));
    forall l ensures l in Descending(ZeroErrors(reported)) <==> IsEdited(locs, l) {
      DescendingMembers(ZeroErrors(reported), l);
      ZeroErrorsMembers(reported, l);
      ReportedExactly(locs, reported, l);
    }
  }

  /** A lone zero code in another spelling is neither reported nor edited. */
  lemma LoneSpellingOverlooked()
    ensures var l := Location("f", 0, "", "00");
            IsDigits(l.code) && IntOf(l.code) == 0 && Reports([l], l) == 0 && Descending(ZeroErrors([])) == []
  {
  }
}
