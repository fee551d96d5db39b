/** The older server revision in tempCodeRunnerFile.py: suggestions carry `alt`
    domains, every main and alternative domain is checked, the WHOIS server is chosen
    by suffix and its reply classified by phrases, and the available domains are
    sorted with .com first and .ma second. The socket exchange and the model call are
    inputs. */
module LegacyServer {
  import opened Text
  import opened Seqs
  import opened Domains

  const SuggestionCount: int := 20

  const SuggestExtensions: seq<string> := [".com", ".ma", ".net", ".org", ".info", ".me", ".net.ma"]

  const FallbackExtensions: seq<string> := [".com", ".ma", ".net", ".org", ".info", ".me"]

  // ---------------------------------------------------------------------------
  // Priority sort

  /** The first component of the sort key: 0 for "com", 1 for exactly "ma", 2 for
      anything else, "co.ma" included. */
  function Rank(domain: string): (r: nat)
    ensures r <= 2
  {
    var ext := ExtractExtension(domain);
    if ext == "com" then 0 else if ext == "ma" then 1 else 2
  }

  lemma RankCom(p: string)
    ensures Rank(p + ".com") == 0
  {
    assert p + ".com" == p + "." + "com";
    ExtractSimple(p, "com");
  }

  lemma RankMa(a: string)
    requires '.' !in a
    ensures Rank(a + ".ma") == 1
  {
    ExtractTwoLabelMa(a);
  }

  /** A second-level .ma name such as "x.co.ma" has extension "co.ma" and so ranks with
      the rest rather than with "ma". */
  lemma RankCompoundMa(p: string, x: string)
    requires '.' !in x
    ensures Rank(p + "." + x + ".ma") == 2
  {
    ExtractCompound(p, x);
    assert |x + ".ma"| >= 3;
  }

  /** `available_domains.sort(key=...)`: a permutation of the input ordered by rank and,
      within a rank, by domain. */
  function PrioritySort(s: seq<Suggestion>): (r: seq<Suggestion>)
    ensures multiset(r) == multiset(s)
    ensures forall i, j :: 0 <= i < j < |r| ==>
      Rank(r[i].domain) < Rank(r[j].domain)
      || (Rank(r[i].domain) == Rank(r[j].domain) && LexLe(r[i].domain, r[j].domain))
  {
    SortBy(s, Rank)
  }

  /** Every .com entry of the sorted list comes before every other entry, and every
      exact .ma entry before every entry of rank 2. */
  lemma ComFirst(s: seq<Suggestion>, i: nat, j: nat)
    requires i < j < |PrioritySort(s)|
    ensures var r := PrioritySort(s);
      (Rank(r[j].domain) == 0 ==> Rank(r[i].domain) == 0)
      && (Rank(r[j].domain) == 1 ==> Rank(r[i].domain) <= 1)
  {
  }

  /** The response of `api_suggest_fast`: the available domains in priority order, cut
      into a first and a second batch of ten. */
  method BuildLegacyResponse(results: seq<(string, bool)>, style: string) returns (resp: Response)
    ensures resp == Batch(PrioritySort(AvailableOf(results)), style)
    ensures resp.total == |AvailableOf(results)|
    ensures forall s :: s in resp.initial + resp.more ==>
      s.status == Available && s.alt == [] && (s.domain, true) in results
  {
    var available := CollectAvailable(results);
    var sorted := PrioritySort(available);
    resp := Batch(sorted, style);
    AvailableOfMembers(results);
    forall s | s in resp.initial + resp.more
      ensures s.status == Available && s.alt == [] && (s.domain, true) in results
    {
      assert s in sorted;
      assert s in multiset(sorted);
      assert s in available;
    }
  }

  // ---------------------------------------------------------------------------
  // Flattening main and alternative domains

  /** One parsed suggestion; `domain` is None when the key is absent, and a missing
      `alt` is the empty list. */
  datatype LegacyEntry = LegacyEntry(domain: Option<string>, alt: seq<string>)

  predicate AllHaveDomain(raw: seq<LegacyEntry>)
  {
    forall e :: e in raw ==> e.domain.Some?
  }

  /** The names one entry contributes: its main domain, then its alternatives. */
  function NamesOf(e: LegacyEntry): seq<string>
    requires e.domain.Some?
  {
    [e.domain.value] + e.alt
  }

  /** The check list for `raw`: each entry's names, entry after entry. */
  function Flatten(raw: seq<LegacyEntry>): seq<string>
    requires AllHaveDomain(raw)
  {
    if |raw| == 0 then []
    else
      assert raw[|raw| - 1] in raw;
      Flatten(raw[..|raw| - 1]) + NamesOf(raw[|raw| - 1])
  }

  /** The number of names checked: one main domain and its alternatives per entry. */
  function CheckCount(raw: seq<LegacyEntry>): nat
  {
    if |raw| == 0 then 0 else CheckCount(raw[..|raw| - 1]) + 1 + |raw[|raw| - 1].alt|
  }

  lemma {:induction false} FlattenLength(raw: seq<LegacyEntry>)
    requires AllHaveDomain(raw)
    ensures |Flatten(raw)| == CheckCount(raw)
  {
    if |raw| > 0 {
      FlattenLength(raw[..|raw| - 1]);
    }
  }

  /** The entry `domain_mapping[d]` ends with: the last entry whose names include d. */
  function LastOwner(raw: seq<LegacyEntry>, d: string): (e: LegacyEntry)
    requires AllHaveDomain(raw) && d in Flatten(raw)
    ensures e in raw && d in NamesOf(e)
  {
    var init := raw[..|raw| - 1];
    var last := raw[|raw| - 1];
    assert last in raw;
    if d in NamesOf(last) then last
    else
      assert d in Flatten(init);
      var e := LastOwner(init, d);
      assert e in raw;
      e
  }

  /** `m` after writing `e` under each of `names`, in order. */
  function Assign(m: map<string, LegacyEntry>, names: seq<string>, e: LegacyEntry): map<string, LegacyEntry>
  {
    if |names| == 0 then m
    else Assign(m, names[..|names| - 1], e)[names[|names| - 1] := e]
  }

  lemma {:induction false} AssignFacts(m: map<string, LegacyEntry>, names: seq<string>, e: LegacyEntry)
    ensures forall d :: d in Assign(m, names, e) <==> d in m || d in names
    ensures forall d :: d in Assign(m, names, e) ==> Assign(m, names, e)[d] == if d in names then e else m[d]
  {
    if |names| > 0 {
      var init := names[..|names| - 1];
      AssignFacts(m, init, e);
      assert names == init + [names[|names| - 1]];
    }
  }

  /** `domain_mapping` after the loop over `raw`. */
  function MappingOf(raw: seq<LegacyEntry>): map<string, LegacyEntry>
    requires AllHaveDomain(raw)
  {
    if |raw| == 0 then map[]
    else
      assert raw[|raw| - 1] in raw;
      Assign(MappingOf(raw[..|raw| - 1]), NamesOf(raw[|raw| - 1]), raw[|raw| - 1])
  }

  /** The mapping has exactly the checked names as keys, and sends each to the last
      entry that mentions it: later writes win. */
  lemma {:induction false} MappingOfFacts(raw: seq<LegacyEntry>)
    requires AllHaveDomain(raw)
    ensures forall d :: d in MappingOf(raw) <==> d in Flatten(raw)
    ensures forall d :: d in MappingOf(raw) ==> MappingOf(raw)[d] == LastOwner(raw, d)
  {
    if |raw| > 0 {
      var init, last := raw[..|raw| - 1], raw[|raw| - 1];
      assert last in raw;
      MappingOfFacts(init);
      AssignFacts(MappingOf(init), NamesOf(last), last);
    }
  }

  /** One more entry with a domain: its names are appended and written to the map. */
  lemma FlattenStep(raw: seq<LegacyEntry>, i: nat)
    requires i < |raw| && AllHaveDomain(raw[..i]) && raw[i].domain.Some?
    ensures AllHaveDomain(raw[..i + 1])
    ensures Flatten(raw[..i + 1]) == Flatten(raw[..i]) + NamesOf(raw[i])
    ensures MappingOf(raw[..i + 1]) == Assign(MappingOf(raw[..i]), NamesOf(raw[i]), raw[i])
  {
    var prefix := raw[..i + 1];
    assert prefix == raw[..i] + [raw[i]];
    assert prefix[..i] == raw[..i];
  }

  /** The flattening loop: it appends each main domain and then each of its
      alternatives, and maps every name to the last entry that mentions it. An entry
      without a domain raises (ok is then false). */
  method FlattenChecks(raw: seq<LegacyEntry>)
    returns (ok: bool, checks: seq<string>, mapping: map<string, LegacyEntry>)
    ensures ok <==> AllHaveDomain(raw)
    ensures ok ==> checks == Flatten(raw) && |checks| == CheckCount(raw)
    ensures ok ==> mapping == MappingOf(raw)
    ensures ok ==> forall d :: d in mapping <==> d in checks
    ensures ok ==> forall d :: d in mapping ==> mapping[d] == LastOwner(raw, d)
  {
    checks := [];
    mapping := map[];
    var i := 0;
    while i < |raw|
      invariant 0 <= i <= |raw|
      invariant AllHaveDomain(raw[..i])
      invariant checks == Flatten(raw[..i])
      invariant mapping == MappingOf(raw[..i])
    {
      var entry := raw[i];
      if entry.domain.None? {
        assert entry in raw;
        return false, checks, mapping;
      }
      FlattenStep(raw, i);
      checks, mapping := AddEntry(checks, mapping, entry);
      i := i + 1;
    }
    assert raw[..|raw|] == raw;
    FlattenLength(raw);
    MappingOfFacts(raw);
    ok := true;
  }

  /** The body of the loop for one entry: the main domain, then each alternative, is
      appended to the list and mapped to the entry. */
  method AddEntry(checks0: seq<string>, mapping0: map<string, LegacyEntry>, entry: LegacyEntry)
    returns (checks: seq<string>, mapping: map<string, LegacyEntry>)
    requires entry.domain.Some?
    ensures checks == checks0 + NamesOf(entry)
    ensures mapping == Assign(mapping0, NamesOf(entry), entry)
  {
    ghost var names := NamesOf(entry);
    var main := entry.domain.value;
    checks := checks0 + [main];
    mapping := mapping0[main := entry];
    assert names[..1] == [main];
    var j := 0;
    while j < |entry.alt|
      invariant 0 <= j <= |entry.alt|
      invariant checks == checks0 + names[..j + 1]
      invariant mapping == Assign(mapping0, names[..j + 1], entry)
    {
      assert names[..j + 2] == names[..j + 1] + [entry.alt[j]];
      assert names[..j + 2][..j + 1] == names[..j + 1];
      checks := checks + [entry.alt[j]];
      mapping := mapping[entry.alt[j] := entry];
      j := j + 1;
    }
    assert names[..j + 1] == names;
  }

  // ---------------------------------------------------------------------------
  // WHOIS server selection and reply classification

  datatype WhoisTarget = WhoisTarget(host: string, port: nat, timeout: nat)

  const Registre := "whois.registre.ma"
  const Verisign := "whois.verisign-grs.com"

  /** The second-level .ma suffixes listed beside ".ma". */
  const MaSubSuffixes: seq<string> := [".co.ma", ".net.ma", ".org.ma", ".ac.ma", ".press.ma", ".gov.ma"]

  predicate EndsWithAny(s: string, suffixes: seq<string>)
  {
    exists k :: 0 <= k < |suffixes| && EndsWith(s, suffixes[k])
  }

  /** The server, port and timeout `is_domain_available_fast` connects with, chosen by
      the suffix of the lower-cased domain. */
  function WhoisServer(domain: string): WhoisTarget
  {
    var d := Lower(domain);
    if EndsWith(d, ".ma") || EndsWithAny(d, MaSubSuffixes) then WhoisTarget(Registre, 43, 8)
    else if EndsWith(d, ".com") || EndsWith(d, ".net") then WhoisTarget(Verisign, 43, 5)
    else if EndsWith(d, ".org") then WhoisTarget("whois.pir.org", 43, 5)
    else if EndsWith(d, ".info") then WhoisTarget("whois.afilias.net", 43, 5)
    else if EndsWith(d, ".me") then WhoisTarget("whois.nic.me", 43, 5)
    else WhoisTarget(Registre, 43, 8)
  }

  /** Every listed second-level suffix already ends with ".ma", so that test adds
      nothing. */
  lemma MaSubSuffixesRedundant(s: string)
    ensures EndsWithAny(s, MaSubSuffixes) ==> EndsWith(s, ".ma")
  {
    if EndsWithAny(s, MaSubSuffixes) {
      var k :| 0 <= k < |MaSubSuffixes| && EndsWith(s, MaSubSuffixes[k]);
      MaSubSuffixEndsInMa(k);
      EndsWithTrans(s, MaSubSuffixes[k], ".ma");
    }
  }

  lemma MaSubSuffixEndsInMa(k: nat)
    requires k < |MaSubSuffixes|
    ensures EndsWith(MaSubSuffixes[k], ".ma")
  {
    var e := MaSubSuffixes[k];
    var stem := [".co", ".net", ".org", ".ac", ".press", ".gov"][k];
    assert e == stem + ".ma";
    assert e[|e| - 3..] == ".ma";
  }

  /** The selection as a table, first matching suffix wins. */
  const WhoisTable: seq<(string, WhoisTarget)> := [
    (".ma", WhoisTarget(Registre, 43, 8)),
    (".com", WhoisTarget(Verisign, 43, 5)),
    (".net", WhoisTarget(Verisign, 43, 5)),
    (".org", WhoisTarget("whois.pir.org", 43, 5)),
    (".info", WhoisTarget("whois.afilias.net", 43, 5)),
    (".me", WhoisTarget("whois.nic.me", 43, 5))
  ]

  /** The target of the first row from `i` on whose suffix `d` ends with. */
  function LookupSuffix(table: seq<(string, WhoisTarget)>, d: string, otherwise: WhoisTarget, i: nat): WhoisTarget
    decreases |table| - i
  {
    if i >= |table| then otherwise
    else if EndsWith(d, table[i].0) then table[i].1
    else LookupSuffix(table, d, otherwise, i + 1)
  }

  /** The chain of tests picks the same server as the table, with whois.registre.ma
      (8 s) for any other suffix; the port is always 43. */
  lemma WhoisServerIsTable(domain: string)
    ensures WhoisServer(domain) == LookupSuffix(WhoisTable, Lower(domain), WhoisTarget(Registre, 43, 8), 0)
    ensures WhoisServer(domain).port == 43
  {
    var d := Lower(domain);
    var o := WhoisTarget(Registre, 43, 8);
    MaSubSuffixesRedundant(d);
    assert LookupSuffix(WhoisTable, d, o, 6) == o;
    assert LookupSuffix(WhoisTable, d, o, 5) == if EndsWith(d, ".me") then WhoisTable[5].1 else o;
    assert LookupSuffix(WhoisTable, d, o, 4) == if EndsWith(d, ".info") then WhoisTable[4].1 else LookupSuffix(WhoisTable, d, o, 5);
    assert LookupSuffix(WhoisTable, d, o, 3) == if EndsWith(d, ".org") then WhoisTable[3].1 else LookupSuffix(WhoisTable, d, o, 4);
    assert LookupSuffix(WhoisTable, d, o, 2) == if EndsWith(d, ".net") then WhoisTable[2].1 else LookupSuffix(WhoisTable, d, o, 3);
    assert LookupSuffix(WhoisTable, d, o, 1) == if EndsWith(d, ".com") then WhoisTable[1].1 else LookupSuffix(WhoisTable, d, o, 2);
    assert LookupSuffix(WhoisTable, d, o, 0) == if EndsWith(d, ".ma") then WhoisTable[0].1 else LookupSuffix(WhoisTable, d, o, 1);
  }

  /** The query line: the domain as given, terminated by CRLF (section 2 of RFC 3912). */
  function WhoisQuery(domain: string): (q: string)
    ensures |q| == |domain| + 2 && q[..|domain|] == domain && EndsWith(q, "\r\n")
  {
    domain + "\r\n"
  }

  const AvailabilityIndicators: seq<string> :=
    ["no match", "not found", "no entries found", "status: free", "no data found", "not registered", "available"]

  const UnavailableIndicators: seq<string> :=
    ["creation date", "created on", "registered on", "registration date", "domain status: ok", "status: active", "registrar:"]

  /** `any(indicator in text for indicator in indicators)`. */
  function AnyContains(text: string, indicators: seq<string>): (r: bool)
    ensures r <==> exists k :: 0 <= k < |indicators| && Contains(text, indicators[k])
  {
    if |indicators| == 0 then false
    else
      assert forall k :: 0 < k < |indicators| ==> indicators[k] == indicators[1..][k - 1];
      Contains(text, indicators[0]) || AnyContains(text, indicators[1..])
  }

  /** The verdict on a WHOIS reply: lower-cased, it is available when an availability
      phrase occurs, and otherwise unless a registration phrase occurs. */
  function ClassifyReply(reply: string): bool
  {
    var text := Lower(reply);
    AnyContains(text, AvailabilityIndicators) || !AnyContains(text, UnavailableIndicators)
  }

  /** The verdict in three cases: an availability phrase wins, a registration phrase
      alone means registered, and a reply with neither counts as available. */
  lemma ClassifyReplyCases(reply: string)
    ensures var text := Lower(reply);
      && ((exists k :: 0 <= k < |AvailabilityIndicators| && Contains(text, AvailabilityIndicators[k]))
           ==> ClassifyReply(reply))
      && ((forall k :: 0 <= k < |AvailabilityIndicators| ==> !Contains(text, AvailabilityIndicators[k]))
           ==> (ClassifyReply(reply) <==>
                forall k :: 0 <= k < |UnavailableIndicators| ==> !Contains(text, UnavailableIndicators[k])))
  {
  }

  /** The verdict ignores ASCII case. */
  lemma ClassifyReplyCaseInsensitive(reply: string)
    ensures ClassifyReply(Lower(reply)) == ClassifyReply(reply)
  {
    LowerIdempotent(reply);
  }

  /** Because "available" is an availability phrase, any reply that says
      "unavailable" is classified as available. */
  lemma UnavailableCountsAsAvailable(p: string, q: string)
    ensures ClassifyReply(p + "unavailable" + q)
  {
    var reply := p + "unavailable" + q;
    var text := Lower(reply);
    var i := |p| + 2;
    assert text[i..i + 9] == "available" by {
      forall k | 0 <= k < 9 ensures text[i + k] == "available"[k] {
        assert reply[i + k] == "unavailable"[k + 2];
      }
    }
    ContainsAt(text, "available", i);
    assert AvailabilityIndicators[6] == "available";
  }

  // ---------------------------------------------------------------------------
  // The fallback generator with alternatives

  /** Python's `s[:n]`, negative n counting from the end. */
  function SliceTo<T>(s: seq<T>, n: int): (r: seq<T>)
    ensures |r| == if n >= 0 then Min(n, |s|) else if |s| + n > 0 then |s| + n else 0
    ensures r == s[..|r|]
  {
    if n >= 0 then (if n < |s| then s[..n] else s)
    else if |s| + n > 0 then s[..|s| + n] else []
  }

  /** The twelve base names, each a fixed word and a prefix of the lower-cased idea. */
  function LegacyBaseNames(idea: string, style: string): (names: seq<string>)
    ensures |names| == 12
  {
    var l := Lower(idea);
    if style == "moroccan" then
      ["dar" + Prefix(l, 5), "souk" + Prefix(l, 4), "atlas" + Prefix(l, 3),
       "sahara" + Prefix(l, 2), "medina" + Prefix(l, 2), "riad" + Prefix(l, 4),
       Prefix(l, 6) + "ma", "maroc" + Prefix(l, 3), "casa" + Prefix(l, 4),
       "fes" + Prefix(l, 5), "rabat" + Prefix(l, 3), "agadir" + Prefix(l, 2)]
    else if style == "professional" then
      [Prefix(l, 5) + "pro", Prefix(l, 4) + "solutions", "global" + Prefix(l, 3),
       Prefix(l, 6) + "group", "elite" + Prefix(l, 4), Prefix(l, 5) + "corp",
       "prime" + Prefix(l, 4), Prefix(l, 4) + "systems", "apex" + Prefix(l, 4),
       Prefix(l, 5) + "enterprise", "summit" + Prefix(l, 2), "nexus" + Prefix(l, 3)]
    else if style == "funny" then
      [Prefix(l, 4) + "ify", "super" + Prefix(l, 4), Prefix(l, 5) + "mania",
       "mega" + Prefix(l, 4), Prefix(l, 4) + "zilla", "ultra" + Prefix(l, 3),
       Prefix(l, 5) + "rama", "crazy" + Prefix(l, 3), Prefix(l, 4) + "tastic",
       "epic" + Prefix(l, 4), Prefix(l, 5) + "boom", "wild" + Prefix(l, 4)]
    else
      [Prefix(l, 8), "my" + Prefix(l, 6), Prefix(l, 6) + "web",
       Prefix(l, 6) + "hub", "smart" + Prefix(l, 4), Prefix(l, 6) + "app",
       "go" + Prefix(l, 6), Prefix(l, 5) + "zone", "best" + Prefix(l, 4),
       Prefix(l, 6) + "now", "top" + Prefix(l, 5), "new" + Prefix(l, 5)]
  }

  /** The extensions offered as alternatives to `main`: the first two extensions without
      `main`, in their order (the final `[:2]` cuts nothing from at most two). */
  function AltExtensions(exts: seq<string>, main: string): (r: seq<string>)
    ensures |r| <= 2
    ensures IsSubsequence(r, SliceTo(exts, 2))
    ensures forall e :: e in r <==> e in SliceTo(exts, 2) && e != main
  {
    FilterFacts(SliceTo(exts, 2), e => e != main);
    Filter(SliceTo(exts, 2), e => e != main)
  }

  /** Entry i of the fallback for base name `base`: the object the loop appends, with
      the main extension picked round-robin and up to two alternatives. */
  function FallbackEntry(base: string, exts: seq<string>, i: nat): LegacyEntry
    requires |exts| > 0
  {
    var main := exts[i % |exts|];
    var alts := AltExtensions(exts, main);
    LegacyEntry(Some(base + main), seq(|alts|, k requires 0 <= k < |alts| => base + alts[k]))
  }

  /** The fallback's extensions: the given ones, or the six defaults when none. */
  function LegacyFallbackExts(extensions: seq<string>): (exts: seq<string>)
    ensures |exts| > 0
    ensures |extensions| == 0 ==> exts == FallbackExtensions
    ensures |extensions| > 0 ==> exts == extensions
  {
    if |extensions| == 0 then FallbackExtensions else extensions
  }

  /** `generate_fallback_domains` in closed form. */
  function LegacyFallback(idea: string, style: string, extensions: seq<string>, n: int): (r: seq<LegacyEntry>)
    ensures |r| == if n >= 0 then Min(n, 12) else if 12 + n > 0 then 12 + n else 0
  {
    var exts := LegacyFallbackExts(extensions);
    var names := SliceTo(LegacyBaseNames(idea, style), n);
    seq(|names|, i requires 0 <= i < |names| => FallbackEntry(names[i], exts, i))
  }

  /** The alternatives of one entry, taken one by one: each is the base with an
      extension of the first two other than the main one, and is not the main domain. */
  lemma FallbackEntryAlts(base: string, exts: seq<string>, i: nat)
    requires |exts| > 0
    ensures var e := FallbackEntry(base, exts, i);
      var main := exts[i % |exts|];
      var alts := AltExtensions(exts, main);
      && e.domain == Some(base + main)
      && |e.alt| == |alts| && (forall k :: 0 <= k < |alts| ==> e.alt[k] == base + alts[k])
      && |e.alt| <= 2
      && (forall k :: 0 <= k < |e.alt| ==>
            exists x :: x in SliceTo(exts, 2) && x != main && e.alt[k] == base + x)
      && e.domain.value !in e.alt
  {
    var e := FallbackEntry(base, exts, i);
    var main := exts[i % |exts|];
    var alts := AltExtensions(exts, main);
    forall k | 0 <= k < |e.alt|
      ensures e.alt[k] == base + alts[k] && alts[k] in SliceTo(exts, 2) && alts[k] != main
      ensures e.alt[k] != base + main
    {
      assert alts[k] in alts;
      var a := base + alts[k];
      assert a[|base|..] == alts[k];
      assert (base + main)[|base|..] == main;
    }
  }

  /** Every extension of the first two other than the main one gives an alternative. */
  lemma FallbackEntryComplete(base: string, exts: seq<string>, i: nat)
    requires |exts| > 0
    ensures var e := FallbackEntry(base, exts, i);
      var main := exts[i % |exts|];
      forall x :: x in SliceTo(exts, 2) && x != main ==> base + x in e.alt
  {
    var e := FallbackEntry(base, exts, i);
    var main := exts[i % |exts|];
    var alts := AltExtensions(exts, main);
    forall x | x in SliceTo(exts, 2) && x != main ensures base + x in e.alt {
      var k :| 0 <= k < |alts| && alts[k] == x;
      assert e.alt[k] == base + x;
    }
  }

  /** Entry i pairs base name i with extension i mod |exts|; its alternatives are the
      same base with each of the first two extensions other than the main one, in
      order; there are at most two, and none repeats the main domain. */
  lemma LegacyFallbackEntries(idea: string, style: string, extensions: seq<string>, n: int, i: nat)
    requires i < |LegacyFallback(idea, style, extensions, n)|
    ensures var r := LegacyFallback(idea, style, extensions, n);
      var exts := LegacyFallbackExts(extensions);
      var base := LegacyBaseNames(idea, style)[i];
      var main := exts[i % |exts|];
      var alts := AltExtensions(exts, main);
      && r[i].domain == Some(base + main)
      && |r[i].alt| == |alts| && (forall k :: 0 <= k < |alts| ==> r[i].alt[k] == base + alts[k])
      && |r[i].alt| <= 2
      && (forall k :: 0 <= k < |r[i].alt| ==>
            exists e :: e in SliceTo(exts, 2) && e != main && r[i].alt[k] == base + e)
      && (forall e :: e in SliceTo(exts, 2) && e != main ==> base + e in r[i].alt)
      && r[i].domain.value !in r[i].alt
  {
    var exts := LegacyFallbackExts(extensions);
    var base := LegacyBaseNames(idea, style)[i];
    LegacyFallbackAt(idea, style, extensions, n, i);
    FallbackEntryAlts(base, exts, i);
    FallbackEntryComplete(base, exts, i);
  }

  lemma LegacyFallbackAt(idea: string, style: string, extensions: seq<string>, n: int, i: nat)
    requires i < |LegacyFallback(idea, style, extensions, n)|
    ensures i < |LegacyBaseNames(idea, style)|
    ensures LegacyFallback(idea, style, extensions, n)[i]
         == FallbackEntry(LegacyBaseNames(idea, style)[i], LegacyFallbackExts(extensions), i)
  {
  }

  /** The loop of `generate_fallback_domains`. */
  method GenerateFallbackDomains(idea: string, style: string, extensions: seq<string>, n: int)
    returns (domains: seq<LegacyEntry>)
    ensures domains == LegacyFallback(idea, style, extensions, n)
  {
    var exts := LegacyFallbackExts(extensions);
    var names := SliceTo(LegacyBaseNames(idea, style), n);
    domains := AppendLegacyEntries(names, exts);
  }

  /** The loop over `enumerate(base_names[:n])`: entry i for base name i. */
  method AppendLegacyEntries(names: seq<string>, exts: seq<string>) returns (domains: seq<LegacyEntry>)
    requires |exts| > 0
    ensures |domains| == |names|
    ensures forall k :: 0 <= k < |names| ==> domains[k] == FallbackEntry(names[k], exts, k)
  {
    domains := [];
    var i := 0;
    while i < |names|
      invariant 0 <= i <= |names|
      invariant |domains| == i
      invariant forall k :: 0 <= k < i ==> domains[k] == FallbackEntry(names[k], exts, k)
    {
      domains := domains + [FallbackEntry(names[i], exts, i)];
      i := i + 1;
    }
  }

  /** What the older `suggest_domains` returns: the parsed list as it is, or the
      fallback for the (defaulted) extensions. */
  function LegacySuggestions(idea: string, style: string, extensions: seq<string>, n: int,
                             reply: Option<seq<LegacyEntry>>): seq<LegacyEntry>
  {
    var exts := if |extensions| == 0 then SuggestExtensions else extensions;
    if reply.Some? then reply.value else LegacyFallback(idea, style, exts, n)
  }

  datatype LegacyReply = Ok(response: Response) | ServerError(styleUsed: string)

  /** The older `api_suggest_fast`: no validation, extensions normalised, every main and
      alternative domain checked, the available ones priority-sorted and batched. */
  method LegacyApiSuggestFast(idea: string, style: string, extensions: seq<string>,
                              reply: Option<seq<LegacyEntry>>, available: string -> bool)
    returns (out: LegacyReply)
    ensures var raw := LegacySuggestions(idea, style, NormaliseExtensions(extensions), SuggestionCount, reply);
      out.Ok? <==> AllHaveDomain(raw)
    ensures var raw := LegacySuggestions(idea, style, NormaliseExtensions(extensions), SuggestionCount, reply);
      out.Ok? ==> out.response == Batch(PrioritySort(AvailableOf(ResultsFor(Flatten(raw), available))), style)
    ensures out.ServerError? ==> out.styleUsed == style
  {
    var exts := NormaliseExtensions(extensions);
    var raw;
    if reply.Some? {
      raw := reply.value;
    } else {
      var defaulted := if |exts| == 0 then SuggestExtensions else exts;
      raw := GenerateFallbackDomains(idea, style, defaulted, SuggestionCount);
    }
    var ok, checks, mapping := FlattenChecks(raw);
    if !ok {
      return ServerError(style);
    }
    var results := ResultsFor(checks, available);
    var resp := BuildLegacyResponse(results, style);
    out := Ok(resp);
  }
}
