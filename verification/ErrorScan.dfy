/** Duplicate and zero assertion codes: the scan of buildscripts/errorcodes.py. */
module ErrorScan {
  datatype Location = Location(file: string, offset: nat, lines: string, code: string)

  /** The locations with a given code, in scan order. */
  function WithCode(locs: seq<Location>, code: string): seq<Location> {
    if locs == [] then []
    else
      var rest, last := WithCode(locs[..|locs| - 1], code), locs[|locs| - 1];
      if last.code == code then rest + [last] else rest
  }

  /** The dictionaries and the error list of one scan. */
  datatype Findings = Findings(seen: map<string, Location>, dups: map<string, seq<Location>>, errors: seq<Location>)

  /** What seeing one more location does to them. */
  function Checked(f: Findings, loc: Location): Findings {
    if loc.code !in f.seen then f.(seen := f.seen[loc.code := loc])
    else if loc.code !in f.dups then
      var first := f.seen[loc.code];
      f.(dups := f.dups[loc.code := [first, loc]], errors := f.errors + [first, loc])
    else f.(dups := f.dups[loc.code := f.dups[loc.code] + [loc]], errors := f.errors + [loc])
  }

  function CheckedAll(locs: seq<Location>): Findings {
    if locs == [] then Findings(map[], map[], [])
    else Checked(CheckedAll(locs[..|locs| - 1]), locs[|locs| - 1])
  }

  class Scan {
    var codes: seq<Location>      // the module's list, which outlives one scan
    var seen: map<string, Location>
    var dups: map<string, seq<Location>>
    var errors: seq<Location>

    constructor (codes: seq<Location>)
      ensures this.codes == codes && Value() == Findings(map[], map[], [])
    {
      this.codes := codes;
      seen, dups, errors := map[], map[], [];
    }

    ghost function Value(): Findings
      reads this
    {
      Findings(seen, dups, errors)
    }

    method CheckDups(loc: Location)
      modifies this
      ensures Value() == Checked(old(Value()), loc) && codes == old(codes) + [loc]
    {
      codes := codes + [loc];
      var code := loc.code;
      if code !in seen {
        seen := seen[code := loc];
      } else {
        if code !in dups {
          dups := dups[code := [seen[code]]];
          errors := errors + [seen[code]];
        }
        dups := dups[code := dups[code] + [loc]];
        errors := errors + [loc];
        assert code !in old(dups) ==> errors == old(errors) + [seen[code], loc];
        assert code !in old(dups) ==> dups[code] == [seen[code], loc];
        assert dups == Checked(old(Value()), loc).dups;
      }
    }

    /** Scans the locations; a location with code "0" is reported once more. */
    method ReadErrorCodes(locs: seq<Location>) returns (reported: seq<Location>)
      requires Value() == Findings(map[], map[], [])
      modifies this
      ensures codes == old(codes) + locs
      ensures forall c :: (c in dups <==> |WithCode(locs, c)| >= 2) && (c in dups ==> dups[c] == WithCode(locs, c))
      ensures forall l :: multiset(reported)[l] == Reports(locs, l)
    {
      for i := 0 to |locs|
        invariant Value() == CheckedAll(locs[..i]) && codes == old(codes) + locs[..i]
      {
        CheckDups(locs[i]);
        assert locs[..i + 1][..i] == locs[..i];
      }
      assert locs[..|locs|] == locs;
      forall c ensures KnowsCode(CheckedAll(locs), c, WithCode(locs, c)) {
        ScanKnows(locs, c);
      }
      forall l ensures multiset(errors)[l] == Expected(WithCode(locs, l.code), multiset(locs)[l]) {
        ScanErrors(locs, l);
      }
      ScanKnows(locs, "0");
      if "0" in seen {
        errors := errors + [seen["0"]];
      }
      reported := errors;
    }
  }

  // ---------- What a scan finds ----------

  /** What the findings say about one code, given all its locations so far. */
  ghost predicate KnowsCode(f: Findings, code: string, all: seq<Location>) {
    && (code in f.seen <==> all != []) && (code in f.seen ==> f.seen[code] == all[0])
    && (code in f.dups <==> |all| >= 2) && (code in f.dups ==> f.dups[code] == all)
  }

  lemma {:induction false} ScanKnows(locs: seq<Location>, code: string)
    ensures KnowsCode(CheckedAll(locs), code, WithCode(locs, code))
  {
    if locs != [] {
      var front, last := locs[..|locs| - 1], locs[|locs| - 1];
      ScanKnows(front, code);
      if last.code == code && |WithCode(front, code)| == 1 {
        assert WithCode(front, code) + [last] == [WithCode(front, code)[0], last];
      }
    }
  }

  /** How often the errors hold a location that was scanned `count` times, if its code has these locations. */
  function Expected(all: seq<Location>, count: nat): nat {
    if |all| >= 2 then count else 0
  }

  lemma {:induction false} WithCodeCount(locs: seq<Location>, l: Location)
    ensures multiset(WithCode(locs, l.code))[l] == multiset(locs)[l]
  {
    if locs != [] {
      WithCodeCount(locs[..|locs| - 1], l);
      assert locs == locs[..|locs| - 1] + [locs[|locs| - 1]];
    }
  }

  lemma {:induction false} WithCodeOnly(locs: seq<Location>, code: string)
    ensures forall l :: l in WithCode(locs, code) ==> l.code == code && l in locs
  {
    if locs != [] {
      WithCodeOnly(locs[..|locs| - 1], code);
    }
  }

  lemma {:induction false} ScanErrors(locs: seq<Location>, l: Location)
    ensures multiset(CheckedAll(locs).errors)[l] == Expected(WithCode(locs, l.code), multiset(locs)[l])
  {
    if locs != [] {
      var front, last := locs[..|locs| - 1], locs[|locs| - 1];
      assert locs == front + [last];
      var before := WithCode(front, last.code);
      ScanErrors(front, l);
      ScanKnows(front, last.code);
      WithCodeOnly(front, last.code);
      CheckedErrors(CheckedAll(front), last, before, l);
      LastCount(front, last, l);
      if last.code == l.code {
        WithCodeCount(front, l);
        assert WithCode(locs, l.code) == before + [last];
      } else {
        assert l !in before && WithCode(locs, l.code) == WithCode(front, l.code);
      }
    }
  }

  lemma LastCount(front: seq<Location>, last: Location, l: Location)
    ensures multiset(front + [last])[l] == multiset(front)[l] + if l == last then 1 else 0
  {
  }

  /** How often one more location adds `l` to the errors, given the earlier locations with its code. */
  lemma CheckedErrors(f: Findings, last: Location, before: seq<Location>, l: Location)
    requires KnowsCode(f, last.code, before) && forall x :: x in before ==> x.code == last.code
    ensures multiset(Checked(f, last).errors)[l] == multiset(f.errors)[l] +
            (if |before| >= 1 && l == last then 1 else 0) + (if |before| == 1 then multiset(before)[l] else 0)
  {
    if |before| == 1 {
      assert before == [before[0]];
      assert Checked(f, last).errors == f.errors + before + [last];
    }
  }

  /** How often a location is reported. */
  ghost function Reports(locs: seq<Location>, l: Location): nat {
    Expected(WithCode(locs, l.code), multiset(locs)[l])
    + if WithCode(locs, "0") != [] && WithCode(locs, "0")[0] == l then 1 else 0
  }

  /** The reported locations are those whose code occurs twice or more, and those with code "0". */
  lemma ReportedExactly(locs: seq<Location>, reported: seq<Location>, l: Location)
    requires multiset(reported)[l] == Reports(locs, l)
    ensures l in reported <==> l in locs && (|WithCode(locs, l.code)| >= 2 || l.code == "0")
  {
    assert l in reported <==> multiset(reported)[l] > 0;
    assert l in locs <==> multiset(locs)[l] > 0;
    WithCodeCount(locs, l);
    var zeros := WithCode(locs, "0");
    WithCodeOnly(locs, "0");
    if zeros != [] {
      assert zeros[0] in zeros;
    }
    if l.code == "0" && |zeros| == 1 {
      assert zeros == [zeros[0]];
    }
  }

  /** Two positions hold the same code. */
  ghost predicate Clash(locs: seq<Location>, i: nat, j: nat) {
    i < j < |locs| && locs[i].code == locs[j].code
  }

  lemma {:induction false} TwiceIsTwo(locs: seq<Location>, i: nat, j: nat)
    requires Clash(locs, i, j)
    ensures |WithCode(locs, locs[i].code)| >= 2
  {
    var front := locs[..|locs| - 1];
    if j < |front| {
      TwiceIsTwo(front, i, j);
    } else {
      assert front[i] in multiset(front);
      WithCodeCount(front, front[i]);
    }
  }

  lemma {:induction false} TwoAreTwice(locs: seq<Location>, code: string) returns (i: nat, j: nat)
    requires |WithCode(locs, code)| >= 2
    ensures Clash(locs, i, j)
  {
    var front, last := locs[..|locs| - 1], locs[|locs| - 1];
    if |WithCode(front, code)| >= 2 {
      i, j := TwoAreTwice(front, code);
    } else {
      j := |locs| - 1;
      WithCodeOnly(front, code);
      assert WithCode(front, code)[0] in WithCode(front, code);
      i :| 0 <= i < |front| && front[i] == WithCode(front, code)[0];
    }
  }

  /** check_error_codes: nothing is reported exactly if no two codes are equal and none is "0". */
  lemma NothingReported(locs: seq<Location>, reported: seq<Location>)
    requires forall l :: multiset(reported)[l] == Reports(locs, l)
    ensures reported == [] <==> (forall i: nat, j: nat :: !Clash(locs, i, j)) && forall l :: l in locs ==> l.code != "0"
  {
    if reported == [] {
      forall l | l in locs ensures l.code != "0" && |WithCode(locs, l.code)| < 2 {
        ReportedExactly(locs, reported, l);
      }
      forall i: nat, j: nat ensures !Clash(locs, i, j) {
        if Clash(locs, i, j) {
          assert locs[i] in locs;
          TwiceIsTwo(locs, i, j);
          assert false;
        }
      }
    } else {
      var l := reported[0];
      ReportedExactly(locs, reported, l);
      if |WithCode(locs, l.code)| >= 2 {
        var i, j := TwoAreTwice(locs, l.code);
      }
    }
  }
}
