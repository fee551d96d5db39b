/** The results page of static/app.js: the client-side filter that flattens main and
    alternative domains, and the page's module-level state as one object — the
    auto-scroll arbitration, the rotating status message, the submit handler and the
    "load more" button. Timestamps, scroll offsets and row geometry are integer
    parameters; the fetch is replaced by its outcome. */
module Client {
  import opened Text
  import opened Seqs
  import opened Domains

  // ---------------------------------------------------------------------------
  // filterDomainsByExtensions

  /** The rows an alternative domain becomes: available, with no alternatives. */
  function AltRows(alts: seq<string>): seq<Suggestion>
  {
    seq(|alts|, k requires 0 <= k < |alts| => Suggestion(alts[k], Available, []))
  }

  /** What one suggestion offers the filter: itself, then a row per alternative. */
  function Expand(d: Suggestion): seq<Suggestion>
  {
    [d] + AltRows(d.alt)
  }

  /** A suggestion offers itself first and then exactly its alternatives, in order, each
      as a fresh available row without alternatives of its own; an offered domain is
      the suggestion's or one of its alternatives. */
  lemma ExpandRows(d: Suggestion)
    ensures |Expand(d)| == 1 + |d.alt| && Expand(d)[0] == d
    ensures forall k :: 0 <= k < |d.alt| ==> Expand(d)[k + 1] == Suggestion(d.alt[k], Available, [])
    ensures forall x :: x in Expand(d) ==> x == d || (x.domain in d.alt && x.status == Available && x.alt == [])
  {
    var rows := AltRows(d.alt);
    assert Expand(d) == [d] + rows;
    forall x | x in rows
      ensures x.domain in d.alt && x.status == Available && x.alt == []
    {
      var k :| 0 <= k < |rows| && rows[k] == x;
      assert d.alt[k] == x.domain;
    }
  }

  /** Every offered row, suggestion after suggestion, in the order the loops visit them. */
  function Candidates(domains: seq<Suggestion>): seq<Suggestion>
  {
    if |domains| == 0 then []
    else Candidates(domains[..|domains| - 1]) + Expand(domains[|domains| - 1])
  }

  /** The set of domains in `rows`: the `seen` set. */
  function DomainsOf(rows: seq<Suggestion>): set<string>
  {
    set x | x in rows :: x.domain
  }

  predicate Selected(c: Suggestion, selectedExts: seq<string>)
  {
    LastLabel(c.domain) in selectedExts
  }

  /** One step of the filter: push the row when its last label is selected and its
      domain has not been seen. */
  function Admit(rows: seq<Suggestion>, c: Suggestion, selectedExts: seq<string>): seq<Suggestion>
  {
    if Selected(c, selectedExts) && c.domain !in DomainsOf(rows) then rows + [c] else rows
  }

  /** The filter over an already flattened candidate list. */
  function Admitted(cands: seq<Suggestion>, selectedExts: seq<string>): seq<Suggestion>
  {
    if |cands| == 0 then []
    else Admit(Admitted(cands[..|cands| - 1], selectedExts), cands[|cands| - 1], selectedExts)
  }

  /** What `filterDomainsByExtensions(domains, selectedExts)` returns. */
  function FilterSpec(domains: seq<Suggestion>, selectedExts: seq<string>): seq<Suggestion>
  {
    Admitted(Candidates(domains), selectedExts)
  }

  lemma AdmittedSnoc(cands: seq<Suggestion>, c: Suggestion, selectedExts: seq<string>)
    ensures Admitted(cands + [c], selectedExts) == Admit(Admitted(cands, selectedExts), c, selectedExts)
  {
    assert (cands + [c])[..|cands|] == cands;
  }

  lemma DomainsOfSnoc(rows: seq<Suggestion>, c: Suggestion)
    ensures DomainsOf(rows + [c]) == DomainsOf(rows) + {c.domain}
  {
    assert forall x :: x in rows + [c] <==> x in rows || x == c;
  }

  lemma CandidatesSnoc(domains: seq<Suggestion>, i: nat)
    requires i < |domains|
    ensures Candidates(domains[..i + 1]) == Candidates(domains[..i]) + Expand(domains[i])
  {
    assert domains[..i + 1][..i] == domains[..i];
  }

  /** One step of the loops, as the code takes it: with `seen` the domains kept so
      far, the row is pushed exactly when its last label is selected and its domain
      unseen. */
  lemma AdmitStep(cands: seq<Suggestion>, c: Suggestion, selectedExts: seq<string>, seen: set<string>)
    requires seen == DomainsOf(Admitted(cands, selectedExts))
    ensures var keep := LastLabel(c.domain) in selectedExts && c.domain !in seen;
      && Admitted(cands + [c], selectedExts)
         == (if keep then Admitted(cands, selectedExts) + [c] else Admitted(cands, selectedExts))
      && DomainsOf(Admitted(cands + [c], selectedExts)) == (if keep then seen + {c.domain} else seen)
  {
    AdmittedSnoc(cands, c, selectedExts);
    DomainsOfSnoc(Admitted(cands, selectedExts), c);
  }

  /** The nested `forEach` loops with the `seen` set. */
  method FilterDomainsByExtensions(domains: seq<Suggestion>, selectedExts: seq<string>)
    returns (filtered: seq<Suggestion>)
    ensures filtered == FilterSpec(domains, selectedExts)
  {
    var seen: set<string> := {};
    filtered := [];
    var i := 0;
    while i < |domains|
      invariant 0 <= i <= |domains|
      invariant filtered == FilterSpec(domains[..i], selectedExts)
      invariant seen == DomainsOf(filtered)
    {
      CandidatesSnoc(domains, i);
      filtered, seen := AdmitSuggestion(filtered, seen, domains[i], Candidates(domains[..i]), selectedExts);
      i := i + 1;
    }
    assert domains[..|domains|] == domains;
  }

  /** The body of the outer loop for one suggestion `d`: its main domain, then its
      alternatives. */
  method AdmitSuggestion(filtered0: seq<Suggestion>, seen0: set<string>, d: Suggestion,
                         ghost offered: seq<Suggestion>, selectedExts: seq<string>)
    returns (filtered: seq<Suggestion>, seen: set<string>)
    requires filtered0 == Admitted(offered, selectedExts) && seen0 == DomainsOf(filtered0)
    ensures filtered == Admitted(offered + Expand(d), selectedExts) && seen == DomainsOf(filtered)
  {
    filtered, seen := AdmitRow(filtered0, seen0, d, offered, selectedExts);
    filtered, seen := AdmitAlternatives(filtered, seen, d.alt, offered + [d], selectedExts);
    assert (offered + [d]) + AltRows(d.alt) == offered + Expand(d);
  }

  /** The body of both loops for one row `c`. */
  method AdmitRow(filtered0: seq<Suggestion>, seen0: set<string>, c: Suggestion,
                  ghost offered: seq<Suggestion>, selectedExts: seq<string>)
    returns (filtered: seq<Suggestion>, seen: set<string>)
    requires filtered0 == Admitted(offered, selectedExts) && seen0 == DomainsOf(filtered0)
    ensures filtered == Admitted(offered + [c], selectedExts) && seen == DomainsOf(filtered)
  {
    filtered, seen := filtered0, seen0;
    AdmitStep(offered, c, selectedExts, seen);
    var ext := LastLabel(c.domain);
    if ext in selectedExts && c.domain !in seen {
      filtered := filtered + [c];
      seen := seen + {c.domain};
    }
  }

  /** The inner `forEach` over one suggestion's alternatives. */
  method AdmitAlternatives(filtered0: seq<Suggestion>, seen0: set<string>, alts: seq<string>,
                           ghost offered: seq<Suggestion>, selectedExts: seq<string>)
    returns (filtered: seq<Suggestion>, seen: set<string>)
    requires filtered0 == Admitted(offered, selectedExts) && seen0 == DomainsOf(filtered0)
    ensures filtered == Admitted(offered + AltRows(alts), selectedExts) && seen == DomainsOf(filtered)
  {
    filtered, seen := filtered0, seen0;
    ghost var rows := AltRows(alts);
    var j := 0;
    assert offered + rows[..0] == offered;
    while j < |alts|
      invariant 0 <= j <= |alts|
      invariant filtered == Admitted(offered + rows[..j], selectedExts)
      invariant seen == DomainsOf(filtered)
    {
      var row := Suggestion(alts[j], Available, []);
      assert offered + rows[..j + 1] == (offered + rows[..j]) + [row];
      filtered, seen := AdmitRow(filtered, seen, row, offered + rows[..j], selectedExts);
      j := j + 1;
    }
    assert rows[..j] == rows;
  }

  /** No two rows of the filter's output share a domain. */
  lemma {:induction false} AdmittedDistinct(cands: seq<Suggestion>, selectedExts: seq<string>)
    ensures forall i, j :: 0 <= i < j < |Admitted(cands, selectedExts)| ==>
      Admitted(cands, selectedExts)[i].domain != Admitted(cands, selectedExts)[j].domain
  {
    if |cands| > 0 {
      var init := cands[..|cands| - 1];
      AdmittedDistinct(init, selectedExts);
      var p := Admitted(init, selectedExts);
      var c := cands[|cands| - 1];
      var r := Admitted(cands, selectedExts);
      if Selected(c, selectedExts) && c.domain !in DomainsOf(p) {
        assert r == p + [c];
        forall i, j | 0 <= i < j < |r| ensures r[i].domain != r[j].domain {
          assert r[i] == p[i];
          if j == |p| {
            assert r[j] == c;
            assert p[i] in p;
            assert p[i].domain in DomainsOf(p);
          } else {
            assert r[j] == p[j];
            assert p[i].domain != p[j].domain;
          }
        }
      } else {
        assert r == p;
      }
    }
  }

  /** Every output row is an offered row whose last label is selected, and the output
      keeps the offered order. */
  lemma {:induction false} AdmittedSelected(cands: seq<Suggestion>, selectedExts: seq<string>)
    ensures forall x :: x in Admitted(cands, selectedExts) ==> x in cands && Selected(x, selectedExts)
    ensures IsSubsequence(Admitted(cands, selectedExts), cands)
  {
    if |cands| > 0 {
      var init, c := cands[..|cands| - 1], cands[|cands| - 1];
      assert cands == init + [c];
      AdmittedSelected(init, selectedExts);
      var p := Admitted(init, selectedExts);
      var r := Admitted(cands, selectedExts);
      if Selected(c, selectedExts) && c.domain !in DomainsOf(p) {
        assert r == p + [c];
        assert r[..|r| - 1] == p && r[|r| - 1] == c;
        assert IsSubsequence(r, cands);
      } else {
        assert r == p;
        IsSubsequenceExtend(p, init, c);
      }
      forall x | x in r ensures x in cands && Selected(x, selectedExts) {
        if x in p { assert x in init; }
      }
    }
  }

  /** Every offered row whose last label is selected has its domain in the output. */
  lemma {:induction false} AdmittedComplete(cands: seq<Suggestion>, selectedExts: seq<string>)
    ensures forall k :: 0 <= k < |cands| && Selected(cands[k], selectedExts) ==>
      cands[k].domain in DomainsOf(Admitted(cands, selectedExts))
  {
    if |cands| > 0 {
      var init, c := cands[..|cands| - 1], cands[|cands| - 1];
      AdmittedComplete(init, selectedExts);
      var p := Admitted(init, selectedExts);
      DomainsOfSnoc(p, c);
      forall k | 0 <= k < |cands| - 1 && Selected(cands[k], selectedExts)
        ensures cands[k].domain in DomainsOf(Admitted(cands, selectedExts))
      {
        assert init[k] == cands[k];
      }
    }
  }

  /** The first offered row with domain `d`, if any. */
  function FirstWith(cands: seq<Suggestion>, d: string): Option<Suggestion>
  {
    if |cands| == 0 then None
    else
      var earlier := FirstWith(cands[..|cands| - 1], d);
      if earlier.Some? then earlier
      else if cands[|cands| - 1].domain == d then Some(cands[|cands| - 1]) else None
  }

  /** Each output row is the first offered row with its domain: a later duplicate, as a
      main or as an alternative, never replaces it. */
  lemma {:induction false} AdmittedFirst(cands: seq<Suggestion>, selectedExts: seq<string>)
    ensures forall x :: x in Admitted(cands, selectedExts) ==> FirstWith(cands, x.domain) == Some(x)
  {
    if |cands| > 0 {
      var init, c := cands[..|cands| - 1], cands[|cands| - 1];
      AdmittedFirst(init, selectedExts);
      AdmittedComplete(init, selectedExts);
      var p := Admitted(init, selectedExts);
      forall x | x in Admitted(cands, selectedExts) ensures FirstWith(cands, x.domain) == Some(x) {
        if x !in p {
          assert x == c && c.domain !in DomainsOf(p);
          if FirstWith(init, c.domain).Some? {
            FirstIndexExists(init, c.domain);
            FirstWithDomain(init, c.domain);
            assert false;
          }
        }
      }
    }
  }

  /** The index of `FirstWith`. */
  lemma {:induction false} FirstIndexExists(cands: seq<Suggestion>, d: string)
    requires FirstWith(cands, d).Some?
    ensures exists k :: 0 <= k < |cands| && cands[k] == FirstWith(cands, d).value
  {
    if FirstWith(cands[..|cands| - 1], d).Some? {
      FirstIndexExists(cands[..|cands| - 1], d);
      var k :| 0 <= k < |cands| - 1 && cands[..|cands| - 1][k] == FirstWith(cands, d).value;
      assert cands[k] == cands[..|cands| - 1][k];
    } else {
      assert cands[|cands| - 1] == FirstWith(cands, d).value;
    }
  }

  lemma {:induction false} FirstWithDomain(cands: seq<Suggestion>, d: string)
    requires FirstWith(cands, d).Some?
    ensures FirstWith(cands, d).value.domain == d
  {
    if FirstWith(cands[..|cands| - 1], d).Some? {
      FirstWithDomain(cands[..|cands| - 1], d);
    }
  }

  /** An empty selection keeps nothing. */
  lemma {:induction false} AdmittedEmptySelection(cands: seq<Suggestion>)
    ensures Admitted(cands, []) == []
  {
    if |cands| > 0 {
      AdmittedEmptySelection(cands[..|cands| - 1]);
    }
  }

  /** An offered row is a suggestion passed through as it is, or one of a suggestion's
      alternatives as an available row without alternatives. */
  lemma {:induction false} CandidatesShape(domains: seq<Suggestion>)
    ensures forall c :: c in Candidates(domains) ==>
      c in domains
      || (c.status == Available && c.alt == [] && exists i :: 0 <= i < |domains| && c.domain in domains[i].alt)
  {
    if |domains| > 0 {
      var init, d := domains[..|domains| - 1], domains[|domains| - 1];
      CandidatesShape(init);
      assert d in domains;
      forall c | c in Candidates(domains)
        ensures c in domains
          || (c.status == Available && c.alt == [] && exists i :: 0 <= i < |domains| && c.domain in domains[i].alt)
      {
        if c in Candidates(init) {
          if c !in init {
            var i :| 0 <= i < |init| && c.domain in init[i].alt;
            assert domains[i] == init[i];
          } else {
            assert c in domains;
          }
        } else if c != d {
          var rows := AltRows(d.alt);
          assert c in rows;
          var k :| 0 <= k < |rows| && rows[k] == c;
          assert d.alt[k] in domains[|domains| - 1].alt;
        }
      }
    }
  }

  /** The promises of `filterDomainsByExtensions`, in terms of the suggestions it is
      given: no domain twice; only selected last labels (so "x.co.ma" counts as "ma");
      nothing for an empty selection; every offered domain with a selected last label
      present, as its first offered row; the offered order kept; mains unchanged and
      alternatives as available rows. */
  lemma FilterProperties(domains: seq<Suggestion>, selectedExts: seq<string>)
    ensures var r := FilterSpec(domains, selectedExts);
      && (forall i, j :: 0 <= i < j < |r| ==> r[i].domain != r[j].domain)
      && (forall x :: x in r ==> LastLabel(x.domain) in selectedExts)
      && (selectedExts == [] ==> r == [])
      && IsSubsequence(r, Candidates(domains))
      && (forall k :: 0 <= k < |Candidates(domains)| && LastLabel(Candidates(domains)[k].domain) in selectedExts
            ==> Candidates(domains)[k].domain in DomainsOf(r))
      && (forall x :: x in r ==> FirstWith(Candidates(domains), x.domain) == Some(x))
      && (forall x :: x in r ==>
            (x in domains
             || (x.status == Available && x.alt == [] && exists i :: 0 <= i < |domains| && x.domain in domains[i].alt)))
  {
    var cands := Candidates(domains);
    AdmittedDistinct(cands, selectedExts);
    AdmittedSelected(cands, selectedExts);
    AdmittedComplete(cands, selectedExts);
    AdmittedFirst(cands, selectedExts);
    CandidatesShape(domains);
    if selectedExts == [] {
      AdmittedEmptySelection(cands);
    }
  }

  // ---------------------------------------------------------------------------
  // The page state

  const Messages: seq<string> := [
    "Understanding your business idea and vision...",
    "Creating perfect domain names for your brand...",
    "Generating creative and memorable options...",
    "Crafting domains that match your style preference...",
    "Preparing your brand-perfect domain collection..."
  ]

  /** What the results area shows. */
  datatype Panel = Blank | ResultRows | NoDomainsFound | ServiceUnavailable

  /** The outcome of the fetch: a failure (network error, non-2xx status) or the
      two batches of the reply. */
  datatype Outcome = Failed | Reply(initial: seq<Suggestion>, more: seq<Suggestion>)

  /** The body the submit handler posts. */
  datatype SubmitRequest = SubmitRequest(idea: string, style: string, extensions: seq<string>)

  function Abs(x: int): int { if x < 0 then -x else x }

  function Max(a: int, b: int): int { if a >= b then a else b }

  /** The module-level state of the results page. Each method names in its `modifies`
      clause the globals it assigns; every other one keeps its value. */
  class ResultsPage {
    // The auto-scroll globals.
    var isAutoScrolling: bool
    var userHasScrolled: bool
    var lastScrollTop: int
    var autoScrollStartTime: int
    var expectedScrollPosition: int

    /** The domain rows in the results container, in display order. */
    var rendered: seq<Suggestion>
    var displayedDomainsCount: int
    /** The rows held back for "load more". */
    var moreDomains: seq<Suggestion>
    var isLoadingMore: bool
    var loadMoreBtnDisabled: bool
    /** The "load more" section is displayed. */
    var loadMoreVisible: bool
    var generateBtnDisabled: bool
    /** What the results container shows besides the rows. */
    var panel: Panel
    /** The AI status box is displayed and its message rotates. */
    var aiThinking: bool
    var messageIndex: int
    var selectedStyle: string

    /** The counter matches the rows shown, and the message index stays in range. */
    predicate Valid()
      reads this`displayedDomainsCount, this`rendered, this`messageIndex
    {
      displayedDomainsCount == |rendered| && 0 <= messageIndex < |Messages|
    }

    /** The message the status box shows. */
    function Message(): string
      reads this`displayedDomainsCount, this`rendered, this`messageIndex
      requires Valid()
    {
      Messages[messageIndex]
    }

    /** The module-level initial values. */
    constructor ()
      ensures Valid()
      ensures !isAutoScrolling && !userHasScrolled
      ensures lastScrollTop == 0 && autoScrollStartTime == 0 && expectedScrollPosition == 0
      ensures rendered == [] && displayedDomainsCount == 0 && moreDomains == [] && !isLoadingMore
      ensures !loadMoreBtnDisabled && !loadMoreVisible && !generateBtnDisabled
      ensures panel == Blank && !aiThinking && messageIndex == 0 && selectedStyle == "default"
    {
      isAutoScrolling, userHasScrolled := false, false;
      lastScrollTop, autoScrollStartTime, expectedScrollPosition := 0, 0, 0;
      rendered, displayedDomainsCount := [], 0;
      moreDomains, isLoadingMore := [], false;
      loadMoreBtnDisabled, loadMoreVisible, generateBtnDisabled := false, false, false;
      panel, aiThinking, messageIndex, selectedStyle := Blank, false, 0, "default";
    }

    // -- auto-scroll arbitration --------------------------------------------

    /** `detectUserScroll` at time `now` and offset `scrollTop`: the flag is set only
        outside an auto-scroll, at least 1000 ms after it started, and more than 50 px
        away from where it was meant to land. */
    method DetectUserScroll(now: int, scrollTop: int)
      modifies this`userHasScrolled
      ensures userHasScrolled == (old(userHasScrolled) ||
        (!isAutoScrolling && now - autoScrollStartTime >= 1000 && Abs(scrollTop - expectedScrollPosition) > 50))
    {
      if isAutoScrolling || now - autoScrollStartTime < 1000 {
        return;
      }
      var scrollDifference := Abs(scrollTop - expectedScrollPosition);
      if scrollDifference > 50 {
        userHasScrolled := true;
      }
    }

    /** The wheel and the touchstart listeners (the same body): the flag is set unless an
        auto-scroll is running. */
    method OnWheelOrTouch()
      modifies this`userHasScrolled
      ensures userHasScrolled == (old(userHasScrolled) || !isAutoScrolling)
    {
      if !isAutoScrolling {
        userHasScrolled := true;
      }
    }

    /** `autoScrollToNewContent`, given the clock, the page offset, the bottom of the last
        row relative to the viewport and the viewport height. Nothing happens once the
        user has scrolled. Otherwise the start time is stamped; with no rows, or with the
        last row already within 50 px of the bottom, the auto-scroll flag is cleared at
        once; else the page is asked to scroll to max(0, target), which is also recorded
        as the expected position, and the flag stays set until the 800 ms timer. */
    method AutoScrollToNewContent(now: int, scrollTop: int, lastRowBottom: int, windowHeight: int)
      returns (scrollTo: Option<int>)
      modifies this`isAutoScrolling, this`autoScrollStartTime, this`expectedScrollPosition
      ensures userHasScrolled ==>
        && scrollTo == None && isAutoScrolling == old(isAutoScrolling)
        && autoScrollStartTime == old(autoScrollStartTime) && expectedScrollPosition == old(expectedScrollPosition)
      ensures !userHasScrolled ==> autoScrollStartTime == now
      ensures !userHasScrolled && (|rendered| == 0 || lastRowBottom <= windowHeight - 50) ==>
        !isAutoScrolling && scrollTo == None && expectedScrollPosition == old(expectedScrollPosition)
      ensures !userHasScrolled && |rendered| > 0 && lastRowBottom > windowHeight - 50 ==>
        var target := scrollTop + lastRowBottom - windowHeight + 100;
        isAutoScrolling && expectedScrollPosition == Max(0, target) && scrollTo == Some(expectedScrollPosition)
      ensures scrollTo.Some? ==> scrollTo.value >= 0
    {
      if userHasScrolled {
        return None;
      }
      isAutoScrolling := true;
      autoScrollStartTime := now;
      if |rendered| == 0 {
        isAutoScrolling := false;
        return None;
      }
      var targetScrollTop := scrollTop + lastRowBottom - windowHeight + 100;
      if lastRowBottom > windowHeight - 50 {
        expectedScrollPosition := Max(0, targetScrollTop);
        scrollTo := Some(expectedScrollPosition);
      } else {
        isAutoScrolling := false;
        scrollTo := None;
      }
    }

    /** The 800 ms timer that ends a smooth scroll. */
    method AutoScrollCompleted()
      modifies this`isAutoScrolling
      ensures !isAutoScrolling
    {
      isAutoScrolling := false;
    }

    /** `resetScrollState` at page offset `scrollTop`: the only place the user-scroll
        flag is cleared. */
    method ResetScrollState(scrollTop: int)
      modifies this`userHasScrolled, this`isAutoScrolling, this`autoScrollStartTime,
        this`lastScrollTop, this`expectedScrollPosition
      ensures !userHasScrolled && !isAutoScrolling && autoScrollStartTime == 0
      ensures lastScrollTop == scrollTop && expectedScrollPosition == scrollTop
    {
      userHasScrolled := false;
      isAutoScrolling := false;
      autoScrollStartTime := 0;
      lastScrollTop := scrollTop;
      expectedScrollPosition := lastScrollTop;
    }

    // -- status message ------------------------------------------------------

    /** `startMessageCycling`: back to the first message, rotating. */
    method StartMessageCycling()
      requires Valid()
      modifies this`messageIndex, this`aiThinking
      ensures Valid() && Message() == Messages[0]
      ensures messageIndex == 0 && aiThinking
    {
      messageIndex := 0;
      aiThinking := true;
    }

    /** One tick of the 2000 ms interval: the next message, wrapping after the fifth. */
    method OnMessageTick()
      requires Valid() && aiThinking
      modifies this`messageIndex
      ensures Valid()
      ensures messageIndex == (old(messageIndex) + 1) % |Messages|
      ensures old(messageIndex) < |Messages| - 1 ==> messageIndex == old(messageIndex) + 1
      ensures old(messageIndex) == |Messages| - 1 ==> messageIndex == 0
    {
      messageIndex := (messageIndex + 1) % |Messages|;
    }

    /** `hideAIThinking`: the status box is hidden and the interval cleared. */
    method HideAIThinking()
      modifies this`aiThinking
      ensures !aiThinking
    {
      aiThinking := false;
    }

    /** The style buttons. */
    method SelectStyle(style: string)
      modifies this`selectedStyle
      ensures selectedStyle == style
    {
      selectedStyle := style;
    }

    // -- rendering -----------------------------------------------------------

    /** `createDomainRowWithAI`: one more row, and the counter with it. */
    method CreateDomainRow(d: Suggestion)
      requires Valid()
      modifies this`rendered, this`displayedDomainsCount
      ensures Valid()
      ensures rendered == old(rendered) + [d]
    {
      rendered := rendered + [d];
      displayedDomainsCount := displayedDomainsCount + 1;
    }

    /** `displayAvailableDomainsStreaming`: one row per domain, in order. */
    method DisplayAvailableDomainsStreaming(domains: seq<Suggestion>)
      requires Valid()
      modifies this`rendered, this`displayedDomainsCount
      ensures Valid()
      ensures rendered == old(rendered) + domains
    {
      var i := 0;
      while i < |domains|
        invariant 0 <= i <= |domains|
        invariant Valid()
        invariant rendered == old(rendered) + domains[..i]
      {
        assert domains[..i + 1] == domains[..i] + [domains[i]];
        CreateDomainRow(domains[i]);
        i := i + 1;
      }
      assert domains[..i] == domains;
    }

    // -- submit --------------------------------------------------------------

    /** The submit handler's preamble: the scroll state reset, the counter zeroed, the
        generate button disabled, the "load more" section hidden and emptied, the rows
        cleared and the status box started. */
    method ClearForRequest(scrollTop: int)
      requires Valid()
      modifies this`userHasScrolled, this`isAutoScrolling, this`autoScrollStartTime,
        this`lastScrollTop, this`expectedScrollPosition, this`displayedDomainsCount,
        this`generateBtnDisabled, this`loadMoreVisible, this`moreDomains, this`rendered,
        this`panel, this`messageIndex, this`aiThinking
      ensures Valid()
      ensures !userHasScrolled && !isAutoScrolling && autoScrollStartTime == 0
      ensures lastScrollTop == scrollTop && expectedScrollPosition == scrollTop
      ensures rendered == [] && generateBtnDisabled && !loadMoreVisible && moreDomains == []
      ensures panel == Blank && messageIndex == 0 && aiThinking
    {
      ResetScrollState(scrollTop);
      displayedDomainsCount := 0;
      generateBtnDisabled := true;
      loadMoreVisible := false;
      moreDomains := [];
      rendered := [];
      panel := Blank;
      StartMessageCycling();
    }

    /** The `catch` of the submit handler: the status box hidden and the
        service-unavailable panel shown. */
    method ShowFailure()
      requires rendered == []
      modifies this`aiThinking, this`panel
      ensures panel == ServiceUnavailable && !aiThinking && rendered == []
    {
      HideAIThinking();
      panel := ServiceUnavailable;
    }

    /** The `try` of the submit handler on a cleared page, once both batches are
        filtered: the status box hidden, the first batch rendered and the second held
        for "load more" (its section shown and its button enabled when it is not
        empty); the no-domains panel when both are empty. */
    method ShowBatches(initial: seq<Suggestion>, more: seq<Suggestion>)
      requires Valid() && rendered == []
      modifies this`moreDomains, this`aiThinking, this`panel, this`rendered,
        this`displayedDomainsCount, this`loadMoreVisible, this`loadMoreBtnDisabled
      ensures Valid()
      ensures rendered == initial && moreDomains == more && !aiThinking
      ensures panel == if |initial| + |more| == 0 then NoDomainsFound else ResultRows
      ensures loadMoreVisible == (old(loadMoreVisible) || |more| > 0)
      ensures loadMoreBtnDisabled == (old(loadMoreBtnDisabled) && |more| == 0)
    {
      moreDomains := more;
      HideAIThinking();
      if |initial| + |more| == 0 {
        panel := NoDomainsFound;
        return;
      }
      panel := ResultRows;
      DisplayAvailableDomainsStreaming(initial);
      if |more| > 0 {
        loadMoreVisible := true;
        loadMoreBtnDisabled := false;
      }
    }

    /** The page once the submit handler has run for a request with `selectedExts`
        issued at offset `scrollTop`: the scroll state reset, the status box hidden,
        the generate button enabled; after a failure the service-unavailable panel and
        no rows; after a reply the filtered batches, the first rendered and the second
        held for "load more", or the no-domains panel when both are empty. */
    predicate ShowsOutcome(selectedExts: seq<string>, scrollTop: int, outcome: Outcome)
      reads this`userHasScrolled, this`isAutoScrolling, this`autoScrollStartTime,
        this`lastScrollTop, this`expectedScrollPosition, this`generateBtnDisabled,
        this`loadMoreVisible, this`moreDomains, this`rendered, this`panel, this`aiThinking,
        this`loadMoreBtnDisabled
    {
      && !userHasScrolled && !isAutoScrolling && autoScrollStartTime == 0
      && lastScrollTop == scrollTop && expectedScrollPosition == scrollTop
      && !generateBtnDisabled && !aiThinking
      && (outcome.Failed? ==>
            panel == ServiceUnavailable && rendered == [] && moreDomains == [] && !loadMoreVisible)
      && (outcome.Reply? ==>
            var initial := FilterSpec(outcome.initial, selectedExts);
            var more := FilterSpec(outcome.more, selectedExts);
            && rendered == initial && moreDomains == more && loadMoreVisible == (|more| > 0)
            && panel == (if |initial| + |more| == 0 then NoDomainsFound else ResultRows)
            && (|more| > 0 ==> !loadMoreBtnDisabled))
    }

    /** The submit handler past its two early returns: clear the page, show the
        outcome, enable the generate button. */
    method Request(selectedExts: seq<string>, scrollTop: int, outcome: Outcome)
      requires Valid()
      modifies this`userHasScrolled, this`isAutoScrolling, this`autoScrollStartTime,
        this`lastScrollTop, this`expectedScrollPosition, this`displayedDomainsCount,
        this`generateBtnDisabled, this`loadMoreVisible, this`moreDomains, this`rendered,
        this`panel, this`messageIndex, this`aiThinking, this`loadMoreBtnDisabled
      ensures Valid() && ShowsOutcome(selectedExts, scrollTop, outcome)
      ensures outcome.Failed? ==> loadMoreBtnDisabled == old(loadMoreBtnDisabled)
      ensures outcome.Reply? ==>
        loadMoreBtnDisabled == (old(loadMoreBtnDisabled) && |FilterSpec(outcome.more, selectedExts)| == 0)
    {
      match outcome {
        case Failed => RequestFailed(selectedExts, scrollTop);
        case Reply(initialBatch, moreBatch) => RequestReplied(selectedExts, scrollTop, initialBatch, moreBatch);
      }
    }

    /** `Request` when the fetch fails. */
    method RequestFailed(selectedExts: seq<string>, scrollTop: int)
      requires Valid()
      modifies this`userHasScrolled, this`isAutoScrolling, this`autoScrollStartTime,
        this`lastScrollTop, this`expectedScrollPosition, this`displayedDomainsCount,
        this`generateBtnDisabled, this`loadMoreVisible, this`moreDomains, this`rendered,
        this`panel, this`messageIndex, this`aiThinking, this`loadMoreBtnDisabled
      ensures Valid() && ShowsOutcome(selectedExts, scrollTop, Failed)
      ensures loadMoreBtnDisabled == old(loadMoreBtnDisabled)
    {
      ClearForRequest(scrollTop);
      ShowFailure();
      generateBtnDisabled := false;
    }

    /** `Request` when the fetch returns the two batches. */
    method RequestReplied(selectedExts: seq<string>, scrollTop: int,
                          initialBatch: seq<Suggestion>, moreBatch: seq<Suggestion>)
      requires Valid()
      modifies this`userHasScrolled, this`isAutoScrolling, this`autoScrollStartTime,
        this`lastScrollTop, this`expectedScrollPosition, this`displayedDomainsCount,
        this`generateBtnDisabled, this`loadMoreVisible, this`moreDomains, this`rendered,
        this`panel, this`messageIndex, this`aiThinking, this`loadMoreBtnDisabled
      ensures Valid() && ShowsOutcome(selectedExts, scrollTop, Reply(initialBatch, moreBatch))
      ensures loadMoreBtnDisabled == (old(loadMoreBtnDisabled) && |FilterSpec(moreBatch, selectedExts)| == 0)
    {
      ClearForRequest(scrollTop);
      var initialDomains := FilterDomainsByExtensions(initialBatch, selectedExts);
      var more := FilterDomainsByExtensions(moreBatch, selectedExts);
      ShowBatches(initialDomains, more);
      generateBtnDisabled := false;
      assert !userHasScrolled && !isAutoScrolling && autoScrollStartTime == 0;
      assert lastScrollTop == scrollTop && expectedScrollPosition == scrollTop;
    }

    /** The submit handler, with the fetch replaced by its outcome. A blank trimmed idea
        or an empty selection returns before anything changes (the latter with an
        alert). Otherwise the request for the trimmed idea, the selected style and the
        selection is issued and the page ends as `ShowsOutcome` describes. */
    method Submit(ideaRaw: string, selectedExts: seq<string>, scrollTop: int, outcome: Outcome)
      returns (request: Option<SubmitRequest>, alerted: bool)
      requires Valid()
      modifies this`userHasScrolled, this`isAutoScrolling, this`autoScrollStartTime,
        this`lastScrollTop, this`expectedScrollPosition, this`displayedDomainsCount,
        this`generateBtnDisabled, this`loadMoreVisible, this`moreDomains, this`rendered,
        this`panel, this`messageIndex, this`aiThinking, this`loadMoreBtnDisabled
      ensures Valid()
      ensures var idea := Strip(ideaRaw, JsWhitespace);
        (|idea| == 0 || |selectedExts| == 0) <==> request == None
      ensures request == None ==> unchanged(this)
      ensures alerted <==> |Strip(ideaRaw, JsWhitespace)| > 0 && |selectedExts| == 0
      ensures request.Some? ==>
        && request.value == SubmitRequest(Strip(ideaRaw, JsWhitespace), selectedStyle, selectedExts)
        && ShowsOutcome(selectedExts, scrollTop, outcome)
      ensures request.Some? && outcome.Failed? ==> loadMoreBtnDisabled == old(loadMoreBtnDisabled)
      ensures request.Some? && outcome.Reply? ==>
        loadMoreBtnDisabled == (old(loadMoreBtnDisabled) && |FilterSpec(outcome.more, selectedExts)| == 0)
    {
      var idea := Strip(ideaRaw, JsWhitespace);
      if |idea| == 0 {
        return None, false;
      }
      if |selectedExts| == 0 {
        return None, true;
      }
      alerted := false;
      request := Some(SubmitRequest(idea, selectedStyle, selectedExts));
      Request(selectedExts, scrollTop, outcome);
    }

    // -- load more -----------------------------------------------------------

    /** The click handler up to its `await`: a click while a pass is running, or with
        nothing held back, has no effect; otherwise the pass starts. */
    method BeginLoadMore() returns (started: bool)
      modifies this`isLoadingMore, this`loadMoreBtnDisabled
      ensures started <==> !old(isLoadingMore) && |moreDomains| > 0
      ensures !started ==> isLoadingMore == old(isLoadingMore) && loadMoreBtnDisabled == old(loadMoreBtnDisabled)
      ensures started ==> isLoadingMore && loadMoreBtnDisabled
    {
      if isLoadingMore || |moreDomains| == 0 {
        return false;
      }
      isLoadingMore := true;
      loadMoreBtnDisabled := true;
      started := true;
    }

    /** The rest of the handler: the held-back rows are rendered in order, then the
        section is hidden, the list emptied and the flag cleared. */
    method FinishLoadMore()
      requires Valid() && isLoadingMore
      modifies this`rendered, this`displayedDomainsCount, this`loadMoreVisible,
        this`moreDomains, this`isLoadingMore
      ensures Valid()
      ensures rendered == old(rendered) + old(moreDomains)
      ensures !loadMoreVisible && moreDomains == [] && !isLoadingMore
    {
      DisplayAvailableDomainsStreaming(moreDomains);
      loadMoreVisible := false;
      moreDomains := [];
      isLoadingMore := false;
    }

    /** Two clicks before the first pass completes: the second is ignored, and the
        held-back rows are rendered exactly once. */
    method DoubleClickLoadMore()
      requires Valid() && !isLoadingMore
      modifies this`rendered, this`displayedDomainsCount, this`loadMoreVisible,
        this`moreDomains, this`isLoadingMore, this`loadMoreBtnDisabled
      ensures Valid()
      ensures rendered == old(rendered) + old(moreDomains)
      ensures moreDomains == [] && !isLoadingMore
    {
      var started := BeginLoadMore();
      if !started {
        return;
      }
      var again := BeginLoadMore();
      assert !again;
      FinishLoadMore();
    }
  }
}
