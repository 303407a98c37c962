/** Reading and printing mongod options: parse_options and mongod_options of pytests/powertest.py. */
module MongodOptions {
  import opened Sequences

  datatype Form = Short | Long {
    function Text(): (s: string)
      ensures s != "" && s[0] == '-'
    {
      if Short? then "-" else "--"
    }
  }

  datatype Entry = Entry(name: string, value: Option<string>, form: Form)

  /** A dictionary in insertion order; names are distinct. */
  type Options = seq<Entry>

  ghost predicate DistinctNames(d: Options) {
    forall i, j :: 0 <= i < j < |d| ==> d[i].name != d[j].name
  }

  /** d[e.name] = (e.value, e.form): an existing name keeps its place. */
  function Put(d: Options, e: Entry): Options {
    if d == [] then [e]
    else if d[0].name == e.name then [e] + d[1..]
    else [d[0]] + Put(d[1..], e)
  }

  // ---------- Printing ----------

  function PrintEntry(e: Entry): seq<string> {
    [e.form.Text() + e.name] + if e.value.Some? && e.value.value != "" then [e.value.value] else []
  }

  /** The tokens of mongod_options. */
  function Print(d: Options): seq<string> {
    if d == [] then [] else Print(d[..|d| - 1]) + PrintEntry(d[|d| - 1])
  }

  /** The loop of mongod_options. */
  method PrintOptionTokens(d: Options) returns (tokens: seq<string>)
    ensures tokens == Print(d)
  {
    tokens := [];
    for i := 0 to |d|
      invariant tokens == Print(d[..i])
    {
      var e := d[i];
      assert d[..i + 1][..i] == d[..i];
      tokens := tokens + [e.form.Text() + e.name];
      if e.value.Some? && e.value.value != "" {
        tokens := tokens + [e.value.value];
      }
    }
    assert d[..|d|] == d;
  }

  // ---------- Parsing ----------

  /** opt_name and opt_form between tokens: not yet assigned, None, or the name of the last option. */
  datatype Current = Unassigned | Nothing | Last(name: string, form: Form)

  datatype Parse = Parsing(options: Options, current: Current) | Error

  /** The position of the first '=', or the length of the token. */
  function EqIndex(t: string): (k: nat)
    ensures k <= |t| && (k < |t| ==> t[k] == '=') && '=' !in t[..k]
  {
    if t == "" || t[0] == '=' then 0
    else
      var k := EqIndex(t[1..]);
      assert t[..k + 1] == [t[0]] + t[1..][..k];
      k + 1
  }

  predicate IsOption(t: string) {
    t != "" && t[0] == '-'
  }

  /** A bare "-" has no second character to look at, and a value may not come first. */
  function ParseToken(p: Parse, t: string): Parse {
    if p.Error? then Error
    else if IsOption(t) then
      if |t| == 1 then Error
      else
        var form := if t[1] == '-' then Long else Short;
        var body := t[|form.Text()|..];
        var eq := EqIndex(body);
        if eq == |body| then Parsing(Put(p.options, Entry(body, None, form)), Last(body, form))
        else Parsing(Put(p.options, Entry(body[..eq], Some(body[eq + 1..]), form)), Nothing)
    else
      match p.current
      case Unassigned => Error
      case Nothing => p
      case Last(name, form) => if name == "" then p else p.(options := Put(p.options, Entry(name, Some(t), form)))
  }

  function ParseTokens(p: Parse, tokens: seq<string>): Parse {
    if tokens == [] then p
    else ParseToken(ParseTokens(p, tokens[..|tokens| - 1]), tokens[|tokens| - 1])
  }

  /** None stands for an exception. */
  function ParseOptions(tokens: seq<string>): Option<Options> {
    var p := ParseTokens(Parsing([], Unassigned), tokens);
    if p.Error? then None else Some(p.options)
  }

  method ParseOptionTokens(tokens: seq<string>) returns (r: Option<Options>)
    ensures r == ParseOptions(tokens)
  {
    var p := Parsing([], Unassigned);
    for i := 0 to |tokens|
      invariant p == ParseTokens(Parsing([], Unassigned), tokens[..i])
    {
      assert tokens[..i + 1][..i] == tokens[..i];
      p := ParseToken(p, tokens[i]);
    }
    assert tokens[..|tokens|] == tokens;
    r := if p.Error? then None else Some(p.options);
  }

  // ---------- Printable options round-trip ----------

  /** What an entry must look like for its tokens to be read back. */
  predicate Printable(e: Entry) {
    && '=' !in e.name
    && (e.form.Short? ==> e.name != "" && e.name[0] != '-')
    && (e.value.Some? ==> e.value.value != "" && e.value.value[0] != '-' && e.name != "")
  }

  lemma {:induction false} PutNew(d: Options, e: Entry)
    requires forall i :: 0 <= i < |d| ==> d[i].name != e.name
    ensures Put(d, e) == d + [e]
  {
    if d != [] {
      PutNew(d[1..], e);
    }
  }

  lemma {:induction false} PutLast(d: Options, old': Entry, e: Entry)
    requires old'.name == e.name && forall i :: 0 <= i < |d| ==> d[i].name != e.name
    ensures Put(d + [old'], e) == d + [e]
  {
    if d == [] {
      assert [old'][1..] == [];
    } else {
      PutLast(d[1..], old', e);
      assert (d + [old'])[1..] == d[1..] + [old'];
    }
  }

  lemma {:induction false} ParseConcat(p: Parse, a: seq<string>, b: seq<string>)
    ensures ParseTokens(p, a + b) == ParseTokens(ParseTokens(p, a), b)
  {
    if b == [] {
      assert a + b == a;
    } else {
      ParseConcat(p, a, b[..|b| - 1]);
      assert (a + b)[..|a + b| - 1] == a + b[..|b| - 1];
    }
  }

  lemma ParsePrintedOption(p: Parse, e: Entry)
    requires p.Parsing? && Printable(e)
    ensures ParseToken(p, e.form.Text() + e.name) == Parsing(Put(p.options, Entry(e.name, None, e.form)), Last(e.name, e.form))
  {
  }

  lemma ParsePrintedEntry(p: Parse, e: Entry)
    requires p.Parsing? && Printable(e) && forall i :: 0 <= i < |p.options| ==> p.options[i].name != e.name
    ensures ParseTokens(p, PrintEntry(e)) == Parsing(p.options + [e], Last(e.name, e.form))
  {
    var t, bare := e.form.Text() + e.name, Entry(e.name, None, e.form);
    ParsePrintedOption(p, e);
    PutNew(p.options, bare);
    var tokens := PrintEntry(e);
    assert ParseTokens(p, [t]) == ParseToken(ParseTokens(p, [t][..0]), t);
    if e.value.Some? {
      assert tokens == [t, e.value.value] && tokens[..1] == [t];
      PutLast(p.options, bare, e);
    }
  }

  lemma {:induction false} PrintedParses(d: Options)
    requires DistinctNames(d) && forall i :: 0 <= i < |d| ==> Printable(d[i])
    ensures var p := ParseTokens(Parsing([], Unassigned), Print(d)); p.Parsing? && p.options == d
  {
    if d != [] {
      var front, last := d[..|d| - 1], d[|d| - 1];
      assert d == front + [last];
      PrintedParses(front);
      ParseConcat(Parsing([], Unassigned), Print(front), PrintEntry(last));
      ParsePrintedEntry(ParseTokens(Parsing([], Unassigned), Print(front)), last);
    }
  }

  // ---------- Nothing else does ----------

  /** An entry could have been read from `t`: a plain value, or an option with '='. */
  ghost predicate ValueFrom(e: Entry, t: string) {
    e.value.Some? && (if IsOption(t) then t == e.form.Text() + e.name + "=" + e.value.value
                      else t == e.value.value && e.name != "")
  }

  /** What every parsed entry looks like. */
  ghost predicate WellRead(e: Entry, tokens: seq<string>) {
    && '=' !in e.name
    && (e.form.Short? && e.name != "" ==> e.name[0] != '-')
    && (e.value.Some? ==> exists t :: t in tokens && ValueFrom(e, t))
  }

  lemma {:induction false} PutMembers(d: Options, e: Entry, x: Entry)
    requires x in Put(d, e)
    ensures x == e || x in d
  {
    if d != [] && d[0].name != e.name && x != d[0] {
      PutMembers(d[1..], e, x);
    }
  }

  /** What holds of the parser's state after reading `tokens`. */
  ghost predicate ReadsWell(p: Parse, tokens: seq<string>)
    requires p.Parsing?
  {
    && (p.current.Last? ==> WellRead(Entry(p.current.name, None, p.current.form), tokens))
    && forall e :: e in p.options ==> WellRead(e, tokens)
  }

  lemma WellReadLonger(e: Entry, tokens: seq<string>, t: string)
    requires WellRead(e, tokens)
    ensures WellRead(e, tokens + [t])
  {
  }

  lemma TokenReadsWell(p: Parse, tokens: seq<string>, t: string)
    requires p.Parsing? && ReadsWell(p, tokens) && ParseToken(p, t).Parsing?
    ensures ReadsWell(ParseToken(p, t), tokens + [t])
  {
    var p', tokens' := ParseToken(p, t), tokens + [t];
    assert t in tokens';
    var e := NewEntry(p, t);
    forall x | x in p'.options ensures WellRead(x, tokens') {
      if e.None? {
        WellReadLonger(x, tokens, t);
      } else {
        PutMembers(p.options, e.value, x);
        if x == e.value {
          NewEntryIsWellRead(p, tokens, t);
        } else {
          WellReadLonger(x, tokens, t);
        }
      }
    }
    if p'.current.Last? {
      if IsOption(t) {
        NewEntryIsWellRead(p, tokens, t);
      } else {
        WellReadLonger(Entry(p.current.name, None, p.current.form), tokens, t);
      }
    }
  }

  /** The entry that reading `t` puts into the dictionary, if any. */
  function NewEntry(p: Parse, t: string): Option<Entry>
    requires p.Parsing? && ParseToken(p, t).Parsing?
  {
    if IsOption(t) then
      var form := if t[1] == '-' then Long else Short;
      var body := t[|form.Text()|..];
      var eq := EqIndex(body);
      Some(if eq == |body| then Entry(body, None, form) else Entry(body[..eq], Some(body[eq + 1..]), form))
    else if p.current.Last? && p.current.name != "" then Some(Entry(p.current.name, Some(t), p.current.form))
    else None
  }

  /** An option token with '=' at `eq` of its body is its form, its name, '=' and its value. */
  lemma SplitAtEq(form: string, body: string, eq: nat)
    requires eq < |body| && body[eq] == '='
    ensures form + body == form + body[..eq] + "=" + body[eq + 1..]
  {
  }

  lemma NewEntryIsWellRead(p: Parse, tokens: seq<string>, t: string)
    requires p.Parsing? && ReadsWell(p, tokens) && ParseToken(p, t).Parsing? && NewEntry(p, t).Some?
    ensures WellRead(NewEntry(p, t).value, tokens + [t])
  {
    var e := NewEntry(p, t).value;
    assert t in tokens + [t];
    if IsOption(t) {
      var body := t[|e.form.Text()|..];
      assert t == e.form.Text() + body;
      assert e.form.Short? ==> body[0] == t[1];
      var eq := EqIndex(body);
      assert eq == |body| ==> body[..eq] == body;
      if eq < |body| {
        SplitAtEq(e.form.Text(), body, eq);
        assert ValueFrom(e, t);
      }
    } else {
      assert ValueFrom(e, t);
    }
  }

  lemma {:induction false} TokensReadWell(tokens: seq<string>)
    ensures var p := ParseTokens(Parsing([], Unassigned), tokens); p.Parsing? ==> ReadsWell(p, tokens) && "-" !in tokens
  {
    if tokens != [] {
      var front, last := tokens[..|tokens| - 1], tokens[|tokens| - 1];
      TokensReadWell(front);
      var p := ParseTokens(Parsing([], Unassigned), front);
      if p.Parsing? && ParseToken(p, last).Parsing? {
        TokenReadsWell(p, front, last);
        assert tokens == front + [last];
      }
    }
  }

  lemma {:induction false} PrintMembers(d: Options, t: string)
    ensures t in Print(d) <==> exists e :: e in d && t in PrintEntry(e)
  {
    if d != [] {
      var front, last := d[..|d| - 1], d[|d| - 1];
      PrintMembers(front, t);
      assert d == front + [last];
    }
  }

  /** All that is needed of options that are read back as they were. */
  ghost predicate ReadBack(d: Options) {
    && "-" !in Print(d)
    && forall e :: e in d ==> WellRead(e, Print(d))
  }

  /** The options print a value that reads like an option. */
  ghost predicate DashValue(e: Entry) {
    e.value.Some? && IsOption(e.value.value)
  }

  /** Where a printed token with '=' that reads like an option comes from. */
  lemma OptionWithEq(d: Options, t: string) returns (e: Entry)
    requires ReadBack(d) && t in Print(d) && IsOption(t) && '=' in t
    ensures e in d && DashValue(e) && e.value.value == t
  {
    PrintMembers(d, t);
    e :| e in d && t in PrintEntry(e);
    assert WellRead(e, Print(d));
    assert t != e.form.Text() + e.name;
  }

  ghost function Lengths(d: Options): nat {
    if d == [] then 0 else (if d[0].value.Some? then |d[0].value.value| else 0) + Lengths(d[1..])
  }

  lemma {:induction false} LengthsBound(d: Options, e: Entry)
    requires e in d && e.value.Some?
    ensures |e.value.value| <= Lengths(d)
  {
    if d[0] != e {
      LengthsBound(d[1..], e);
    }
  }

  /** Such a value could only be read from a longer one of its kind, so there is none. */
  lemma {:induction false} NoDashValues(d: Options, e: Entry)
    requires ReadBack(d) && e in d && DashValue(e)
    ensures false
    decreases Lengths(d) - |e.value.value|
  {
    var t :| t in Print(d) && ValueFrom(e, t);
    var longer := OptionWithEq(d, t);
    LengthsBound(d, longer);
    NoDashValues(d, longer);
  }

  lemma ReadBackIsPrintable(d: Options, e: Entry)
    requires ReadBack(d) && e in d
    ensures Printable(e)
  {
    assert WellRead(e, Print(d));
    if e.form.Short? && e.name == "" {
      assert "-" + "" == "-";
      assert e.form.Text() + e.name in PrintEntry(e);
      PrintMembers(d, "-");
      assert false;
    }
    if e.value.Some? {
      var t :| t in Print(d) && ValueFrom(e, t);
      if IsOption(t) {
        var from := OptionWithEq(d, t);
        NoDashValues(d, from);
      }
      PrintMembers(d, t);
      var x :| x in d && t in PrintEntry(x);
      assert t == e.value.value && t != "";
    }
  }

  /** Printing and parsing gives back the same options if and only if every entry is printable. */
  lemma {:induction false} RoundTripExactly(d: Options)
    requires DistinctNames(d)
    ensures ParseOptions(Print(d)) == Some(d) <==> forall i :: 0 <= i < |d| ==> Printable(d[i])
  {
    if forall i :: 0 <= i < |d| ==> Printable(d[i]) {
      PrintedParses(d);
    }
    if ParseOptions(Print(d)) == Some(d) {
      TokensReadWell(Print(d));
      assert ReadBack(d);
      forall i | 0 <= i < |d| ensures Printable(d[i]) {
        ReadBackIsPrintable(d, d[i]);
      }
    }
  }

  /** A value that begins with a dash is read back as an option of its own. */
  lemma DashValueIsLost()
    ensures var d := [Entry("a", Some("-x"), Short)];
            DistinctNames(d) && ParseOptions(Print(d)) == Some([Entry("a", None, Short), Entry("x", None, Short)])
  {
    var d, p := [Entry("a", Some("-x"), Short)], Parsing([], Unassigned);
    assert "-" + "a" == "-a" && PrintEntry(d[0]) == ["-a", "-x"];
    var p1 := ParseToken(p, "-a");
    assert ["-a", "-x"][..1] == ["-a"] && ParseTokens(p, ["-a", "-x"]) == ParseToken(p1, "-x");
    PutNew(p1.options, Entry("x", None, Short));
    assert ParseTokens(p, Print(d)) == ParseToken(p1, "-x");
    assert p1.options + [Entry("x", None, Short)] == [Entry("a", None, Short), Entry("x", None, Short)];
  }

  // ---------- What each token does ----------

  /** `d'` is `d` with `e` in the place of the entry of that name, or behind all others if there is none. */
  ghost predicate IsWith(d: Options, e: Entry, d': Options) {
    || (exists i :: 0 <= i < |d| && d[i].name == e.name && (forall k :: 0 <= k < i ==> d[k].name != e.name) && d' == d[i := e])
    || ((forall i :: 0 <= i < |d| ==> d[i].name != e.name) && d' == d + [e])
  }

  lemma {:induction false} PutIsWith(d: Options, e: Entry)
    ensures IsWith(d, e, Put(d, e))
  {
    if d != [] && d[0].name != e.name {
      PutIsWith(d[1..], e);
      if i :| 0 <= i < |d[1..]| && d[1..][i].name == e.name && (forall k :: 0 <= k < i ==> d[1..][k].name != e.name) &&
              Put(d[1..], e) == d[1..][i := e]
      {
        assert d[i + 1].name == e.name && Put(d, e) == d[i + 1 := e];
        assert forall k :: 0 <= k < i + 1 ==> d[k].name != e.name by {
          assert forall k :: 0 < k < i + 1 ==> d[k] == d[1..][k - 1];
        }
      } else {
        assert forall k :: 0 < k < |d| ==> d[k] == d[1..][k - 1];
      }
    } else if d != [] {
      assert Put(d, e) == d[0 := e];
    }
  }

  lemma {:induction false} PutTwice(d: Options, e: Entry, e': Entry)
    requires e.name == e'.name
    ensures Put(Put(d, e), e') == Put(d, e')
  {
    if d == [] {
      assert [e][1..] == [];
    } else if d[0].name == e.name {
      assert ([e] + d[1..])[1..] == d[1..];
    } else {
      PutTwice(d[1..], e, e');
      assert ([d[0]] + Put(d[1..], e))[1..] == Put(d[1..], e);
    }
  }

  /** A name that an option token of this form can carry. */
  ghost predicate Spellable(form: Form, name: string) {
    '=' !in name && (form.Short? ==> name != "" && name[0] != '-')
  }

  ghost function ParsedUpTo(tokens: seq<string>): Parse {
    ParseTokens(Parsing([], Unassigned), tokens)
  }

  lemma ParseOneMore(tokens: seq<string>, t: string)
    ensures ParsedUpTo(tokens + [t]) == ParseToken(ParsedUpTo(tokens), t)
  {
    assert (tokens + [t])[..|tokens|] == tokens;
  }

  lemma EqAfterName(name: string, v: string)
    requires '=' !in name
    ensures EqIndex(name + "=" + v) == |name|
  {
    var body := name + "=" + v;
    assert body[|name|] == '=' && body[..|name|] == name;
  }

  lemma TokenWithEq(p: Parse, form: Form, name: string, v: string)
    requires p.Parsing? && Spellable(form, name)
    ensures ParseToken(p, form.Text() + (name + "=" + v)) == Parsing(Put(p.options, Entry(name, Some(v), form)), Nothing)
  {
    var body := name + "=" + v;
    var t := form.Text() + body;
    EqAfterName(name, v);
    assert t[|form.Text()|..] == body && body[..|name|] == name && body[|name| + 1..] == v;
    assert form.Short? ==> t[1] == body[0] == name[0];
  }

  /** An option with '=' sets its value, and a plain token after it changes nothing. */
  lemma OptionWithValue(tokens: seq<string>, d: Options, form: Form, name: string, v: string)
    requires ParseOptions(tokens) == Some(d) && Spellable(form, name)
    ensures var tokens' := tokens + [form.Text() + (name + "=" + v)];
            exists d' :: ParseOptions(tokens') == Some(d') && IsWith(d, Entry(name, Some(v), form), d')
                         && forall plain :: !IsOption(plain) ==> ParseOptions(tokens' + [plain]) == Some(d')
  {
    var t, d' := form.Text() + (name + "=" + v), Put(d, Entry(name, Some(v), form));
    ParseOneMore(tokens, t);
    TokenWithEq(ParsedUpTo(tokens), form, name, v);
    PutIsWith(d, Entry(name, Some(v), form));
    assert ParseOptions(tokens + [t]) == Some(d');
    forall plain | !IsOption(plain) ensures ParseOptions(tokens + [t] + [plain]) == Some(d') {
      ParseOneMore(tokens + [t], plain);
    }
  }

  lemma TokenAlone(p: Parse, form: Form, name: string)
    requires p.Parsing? && Spellable(form, name)
    ensures ParseToken(p, form.Text() + name) == Parsing(Put(p.options, Entry(name, None, form)), Last(name, form))
  {
    var t := form.Text() + name;
    assert t[|form.Text()|..] == name;
    assert EqIndex(name) == |name|;
    assert form.Short? ==> t[1] == name[0];
  }

  lemma {:induction false} PlainTokens(tokens: seq<string>, d: Options, form: Form, name: string, plains: seq<string>)
    requires ParseOptions(tokens) == Some(d) && Spellable(form, name) && forall i :: 0 <= i < |plains| ==> !IsOption(plains[i])
    ensures var value := if plains == [] || name == "" then None else Some(plains[|plains| - 1]);
            ParsedUpTo(tokens + [form.Text() + name] + plains) == Parsing(Put(d, Entry(name, value, form)), Last(name, form))
  {
    var t := form.Text() + name;
    if plains == [] {
      assert tokens + [t] + plains == tokens + [t];
      ParseOneMore(tokens, t);
      TokenAlone(ParsedUpTo(tokens), form, name);
    } else {
      var front, last := plains[..|plains| - 1], plains[|plains| - 1];
      PlainTokens(tokens, d, form, name, front);
      assert tokens + [t] + plains == tokens + [t] + front + [last];
      ParseOneMore(tokens + [t] + front, last);
      var value := if front == [] || name == "" then None else Some(front[|front| - 1]);
      PutTwice(d, Entry(name, value, form), Entry(name, Some(last), form));
    }
  }

  /** An option without '=' has no value until plain tokens follow; the last of these is its value. */
  lemma OptionThenPlain(tokens: seq<string>, d: Options, form: Form, name: string, plains: seq<string>)
    requires ParseOptions(tokens) == Some(d) && Spellable(form, name) && forall i :: 0 <= i < |plains| ==> !IsOption(plains[i])
    ensures var value := if plains == [] || name == "" then None else Some(plains[|plains| - 1]);
            exists d' :: ParseOptions(tokens + [form.Text() + name] + plains) == Some(d') && IsWith(d, Entry(name, value, form), d')
  {
    var value := if plains == [] || name == "" then None else Some(plains[|plains| - 1]);
    PlainTokens(tokens, d, form, name, plains);
    PutIsWith(d, Entry(name, value, form));
  }

  /** Parsing fails exactly on a bare "-" and on a plain token that comes first. */
  lemma {:induction false} ParseFailsExactly(tokens: seq<string>)
    ensures ParseOptions(tokens) == None <==> "-" in tokens || (tokens != [] && !IsOption(tokens[0]))
    ensures tokens != [] && ParsedUpTo(tokens).Parsing? ==> ParsedUpTo(tokens).current != Unassigned
  {
    if tokens != [] {
      var front, last := tokens[..|tokens| - 1], tokens[|tokens| - 1];
      ParseFailsExactly(front);
      assert tokens == front + [last];
      assert IsOption(last) && |last| == 1 <==> last == "-";
      assert front != [] ==> front[0] == tokens[0];
    }
  }
}
