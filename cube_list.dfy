/** Cleaning the raw cube list: drop the header line and the maybeboard section, drop excluded
    names, normalize the rest. */
module CubeList {
  import opened Results
  import opened CardNames

  /** The line that opens the maybeboard section; it and everything after it are not in the cube. */
  const Maybeboard: string := "# maybeboard"

  /** `lines.index(x)`: the first position holding `x`, or ValueError when there is none. */
  function IndexOf(lines: seq<string>, x: string): (r: Result<nat>)
    ensures r.Success? <==> x in lines
    ensures r.Success? ==> r.value < |lines| && lines[r.value] == x
    ensures r.Success? ==> forall j :: 0 <= j < r.value ==> lines[j] != x
    ensures r.Failure? ==> r.error == ValueError
  {
    if lines == [] then Failure(ValueError)
    else if lines[0] == x then Success(0)
    else
      var k :- IndexOf(lines[1..], x);
      Success(k + 1)
  }

  /** `filter(is_allowed_card, names)` */
  function FilterAllowed(names: seq<string>): (r: seq<string>)
    ensures |r| <= |names|
    ensures forall n :: n in r ==> n in names && IsAllowedCard(n)
  {
    if names == [] then []
    else (if IsAllowedCard(names[0]) then [names[0]] else []) + FilterAllowed(names[1..])
  }

  /** `[normalize_card_name(n) for n in names]` */
  function NormalizeAll(names: seq<string>): (r: seq<string>)
    ensures |r| == |names|
    ensures forall i :: 0 <= i < |names| ==> r[i] == NormalizeCardName(names[i])
  {
    seq(|names|, i requires 0 <= i < |names| => NormalizeCardName(names[i]))
  }

  /** `clean_list`: the lines after the header and before the first maybeboard line, with the
      excluded names dropped and the rest normalized; ValueError without a maybeboard line. */
  function CleanList(lines: seq<string>): (r: Result<seq<string>>)
    ensures r.Failure? <==> Maybeboard !in lines
    ensures r.Failure? ==> r.error == ValueError
  {
    var k :- IndexOf(lines, Maybeboard);
    // Python's `lines[1:k]` is empty when the stop index is below the start index.
    var body := if k == 0 then [] else lines[1..k];
    Success(NormalizeAll(FilterAllowed(body)))
  }

  /** The positions `i` in `lo..hi` whose line is allowed, in increasing order. */
  function AllowedPositions(lines: seq<string>, lo: nat, hi: nat): (ps: seq<nat>)
    requires hi <= |lines|
    ensures |ps| <= if lo <= hi then hi - lo else 0
    ensures forall j :: 0 <= j < |ps| ==> lo <= ps[j] < hi && IsAllowedCard(lines[ps[j]])
    ensures forall j, j' :: 0 <= j < j' < |ps| ==> ps[j] < ps[j']
    ensures forall i :: lo <= i < hi && IsAllowedCard(lines[i]) ==> i in ps
    decreases hi - lo
  {
    if hi <= lo then []
    else (if IsAllowedCard(lines[lo]) then [lo] else []) + AllowedPositions(lines, lo + 1, hi)
  }

  lemma {:induction false} FilterAllowedPicks(lines: seq<string>, lo: nat, hi: nat)
    requires lo <= hi <= |lines|
    ensures var ps := AllowedPositions(lines, lo, hi);
      && |FilterAllowed(lines[lo..hi])| == |ps|
      && forall j :: 0 <= j < |ps| ==> FilterAllowed(lines[lo..hi])[j] == lines[ps[j]]
    decreases hi - lo
  {
    if lo < hi {
      var picked := FilterAllowed(lines[lo..hi]);
      var rest := FilterAllowed(lines[lo + 1..hi]);
      assert lines[lo..hi][1..] == lines[lo + 1..hi];
      assert picked == (if IsAllowedCard(lines[lo]) then [lines[lo]] else []) + rest;
      FilterAllowedPicks(lines, lo + 1, hi);
      var ps := AllowedPositions(lines, lo, hi);
      var later := AllowedPositions(lines, lo + 1, hi);
      if IsAllowedCard(lines[lo]) {
        assert ps == [lo] + later;
        forall j | 0 < j < |ps|
          ensures picked[j] == lines[ps[j]]
        {
          assert picked[j] == rest[j - 1] && ps[j] == later[j - 1];
        }
      }
    }
  }

  /** The cleaned list is the normalization of exactly the allowed lines strictly after the
      header and before the first maybeboard line, in their order, duplicates included. */
  lemma CleanListSelects(lines: seq<string>)
    requires Maybeboard in lines
    ensures var k := IndexOf(lines, Maybeboard).value;
      var ps := AllowedPositions(lines, 1, k);
      && CleanList(lines).Success?
      && |CleanList(lines).value| == |ps| <= (if k == 0 then 0 else k - 1)
      && forall j :: 0 <= j < |ps| ==> CleanList(lines).value[j] == NormalizeCardName(lines[ps[j]])
  {
    var k := IndexOf(lines, Maybeboard).value;
    if k > 0 {
      FilterAllowedPicks(lines, 1, k);
    }
  }

  /** The header line and everything from the first maybeboard line on have no influence on
      the result. */
  lemma CleanListFrame(header: string, body: seq<string>, tail: seq<string>)
    requires header != Maybeboard && Maybeboard !in body
    ensures CleanList([header] + body + [Maybeboard] + tail) == Success(NormalizeAll(FilterAllowed(body)))
  {
    var lines := [header] + body + [Maybeboard] + tail;
    var k := 1 + |body|;
    assert IndexOf(lines, Maybeboard) == Success(k) by {
      assert lines[k] == Maybeboard;
      forall j | 0 <= j < k
        ensures lines[j] != Maybeboard
      {
        if j > 0 {
          assert lines[j] == body[j - 1];
        }
      }
      IndexOfIsFirst(lines, Maybeboard, k);
    }
    assert lines[1..k] == body;
  }

  lemma IndexOfIsFirst(lines: seq<string>, x: string, k: nat)
    requires k < |lines| && lines[k] == x
    requires forall j :: 0 <= j < k ==> lines[j] != x
    ensures IndexOf(lines, x) == Success(k)
  {
  }

  /** A maybeboard line in the header position leaves nothing in the cube. */
  lemma CleanListMaybeboardFirst(lines: seq<string>)
    requires lines != [] && lines[0] == Maybeboard
    ensures CleanList(lines) == Success([])
  {
    assert IndexOf(lines, Maybeboard) == Success(0);
    assert NormalizeAll(FilterAllowed([])) == [];
  }

  /** No excluded name survives cleaning, even though exclusion is checked before normalization. */
  lemma CleanListAllowed(lines: seq<string>)
    requires Maybeboard in lines
    ensures forall n :: n in CleanList(lines).value ==> IsAllowedCard(n)
  {
    var k := IndexOf(lines, Maybeboard).value;
    var body := if k == 0 then [] else lines[1..k];
    var allowed := FilterAllowed(body);
    forall n | n in CleanList(lines).value
      ensures IsAllowedCard(n)
    {
      var j :| 0 <= j < |allowed| && n == NormalizeCardName(allowed[j]);
      NormalizePreservesAllowed(allowed[j]);
    }
  }

  /** Cleaning is not idempotent: the cleaned list never holds the maybeboard line (a
      normalized name equals it only if the raw name did), so cleaning it again fails. */
  lemma CleanTwiceFails(lines: seq<string>)
    requires Maybeboard in lines
    ensures Maybeboard !in CleanList(lines).value
    ensures CleanList(CleanList(lines).value) == Failure(ValueError)
  {
    var k := IndexOf(lines, Maybeboard).value;
    var body := if k == 0 then [] else lines[1..k];
    var allowed := FilterAllowed(body);
    assert '/' !in Maybeboard;
    forall j | 0 <= j < |allowed|
      ensures NormalizeCardName(allowed[j]) != Maybeboard
    {
      assert allowed[j] in body;
      if HasSeparator(allowed[j]) {
        NormalizeShortens(allowed[j]);
      } else {
        NormalizeWithoutSeparator(allowed[j]);
      }
    }
  }

  /** A one-card cube with a header and a maybeboard section. */
  lemma CleanListExample(lines: seq<string>)
    requires lines == ["mainboard", "Lightning Bolt", Maybeboard, "Other Card"]
    ensures CleanList(lines) == Success(["Lightning Bolt"])
  {
    var bolt := "Lightning Bolt";
    assert lines == ["mainboard"] + [bolt] + [Maybeboard] + ["Other Card"];
    assert CleanList(lines) == Success(NormalizeAll(FilterAllowed([bolt]))) by {
      assert bolt != Maybeboard && "mainboard" != Maybeboard;
      CleanListFrame("mainboard", [bolt], ["Other Card"]);
    }
    assert FilterAllowed([bolt]) == [bolt] by {
      assert bolt != "Cogwork Librarian";
    }
    assert NormalizeAll([bolt]) == [bolt] by {
      PlainNameUnchanged(bolt);
    }
  }

  lemma PlainNameUnchanged(name: string)
    requires name == "Lightning Bolt"
    ensures NormalizeCardName(name) == name
  {
    NoDoubleSlash(name);
    NormalizeWithoutSeparator(name);
  }
}
