/** The live server in app.py: validation of a request, normalisation of its
    extensions, filtering of the parsed model reply by extension, the rule that
    accepts that reply or falls back to generated names, the deterministic fallback
    generator, and the sorted initial/more response. The model call and the WHOIS
    lookups are inputs: the parsed reply, and a verdict per domain. */
module Server {
  import opened Text
  import opened Seqs
  import opened Domains

  const SuggestionCount: int := 60

  /** The keys of `STYLE_PROMPTS`. */
  const Styles: set<string> := {"default", "moroccan", "pro", "funny"}

  /** Extensions used when a request asks for none. */
  const DefaultExtensions: seq<string> := [".com", ".ma", ".net", ".org", ".info", ".me", ".net.ma"]

  /** Extensions used by the fallback generator when it is given none. */
  const FallbackExtensions: seq<string> := [".com", ".ma"]

  // ---------------------------------------------------------------------------
  // Filtering the parsed model reply

  /** One object of the parsed model reply; `domain` is None when the key is absent. */
  datatype ModelEntry = ModelEntry(domain: Option<string>)

  /** One element of the parsed JSON array: an object whose "domain" is absent or a
      string, or a Malformed element (not an object, or an object whose "domain" is not
      a string), on which the extension check raises. */
  datatype ReplyItem = Object(entry: ModelEntry) | Malformed

  predicate WellFormed(items: seq<ReplyItem>)
  {
    forall k :: 0 <= k < |items| ==> items[k].Object?
  }

  function Entries(items: seq<ReplyItem>): (r: seq<ModelEntry>)
    requires WellFormed(items)
    ensures |r| == |items| && forall k :: 0 <= k < |r| ==> r[k] == items[k].entry
  {
    seq(|items|, k requires 0 <= k < |items| => items[k].entry)
  }

  /** `domain_obj.get("domain", "")`. */
  function DomainText(e: ModelEntry): string
  {
    if e.domain.Some? then e.domain.value else ""
  }

  /** The dotted extension that `validate_domain_extensions` and the distribution count
      compute: "" without a dot, ".net.ma" for a name of three or more labels ending in
      ".ma", and otherwise the last label with its dot. */
  function DottedExtension(domain: string): (ext: string)
  {
    var ext := if '.' in domain then "." + LastLabel(domain) else "";
    if EndsWith(domain, ".ma") && LabelCount(domain) >= 3 then
      "." + LastTwoLabels(domain)
    else ext
  }

  /** The dotted extension is `extract_extension` with a dot in front, for every name
      that has a dot. */
  lemma DottedExtensionIsExtract(domain: string)
    ensures DottedExtension(domain) == if '.' in domain then "." + ExtractExtension(domain) else ""
  {
    if EndsWith(domain, ".ma") {
      var p := domain[..|domain| - 3];
      assert domain == p + "." + "ma";
      LastLabelAfterDot(p, "ma");
    }
    LastLabelFacts(domain);
    if '.' in domain && LastLabel(domain) == "ma" {
      assert |LastLabel(domain)| < |domain|;
      assert domain[|domain| - 3..] == ".ma";
    }
    if '.' !in domain {
      LastLabelNoDot(domain);
    }
  }

  predicate HasAllowedExtension(allowed: seq<string>, e: ModelEntry)
  {
    DottedExtension(DomainText(e)) in allowed
  }

  /** The entries of `domains` whose dotted extension is allowed. */
  function ValidDomains(domains: seq<ModelEntry>, allowed: seq<string>): seq<ModelEntry>
  {
    Filter(domains, e => HasAllowedExtension(allowed, e))
  }

  /** `validate_domain_extensions`: it raises (ok is false) exactly when some element is
      malformed; otherwise it keeps the input's order and keeps an entry exactly when its
      dotted extension is one of `allowed`. */
  method ValidateDomainExtensions(items: seq<ReplyItem>, allowed: seq<string>)
    returns (ok: bool, valid: seq<ModelEntry>)
    ensures ok <==> WellFormed(items)
    ensures ok ==> valid == ValidDomains(Entries(items), allowed)
    ensures ok ==> IsSubsequence(valid, Entries(items))
    ensures ok ==> forall e :: e in valid <==> e in Entries(items) && DottedExtension(DomainText(e)) in allowed
  {
    valid := [];
    var i := 0;
    while i < |items|
      invariant 0 <= i <= |items|
      invariant WellFormed(items[..i])
      invariant valid == ValidDomains(Entries(items[..i]), allowed)
    {
      if items[i].Malformed? {
        return false, valid;
      }
      assert WellFormed(items[..i + 1]);
      assert Entries(items[..i + 1])[..i] == Entries(items[..i]);
      var e := items[i].entry;
      var ext := DottedExtension(DomainText(e));
      if ext in allowed {
        valid := valid + [e];
      }
      i := i + 1;
    }
    assert items[..|items|] == items;
    ok := true;
    FilterFacts(Entries(items), e => HasAllowedExtension(allowed, e));
  }

  // ---------------------------------------------------------------------------
  // The acceptance rule

  /** How many entries of `valid` have dotted extension `ext`. */
  function CountWith(valid: seq<ModelEntry>, ext: string): nat
  {
    if |valid| == 0 then 0
    else CountWith(valid[..|valid| - 1], ext)
         + (if DottedExtension(DomainText(valid[|valid| - 1])) == ext then 1 else 0)
  }

  /** The distinct dotted extensions of `valid`. */
  function ExtensionsOf(valid: seq<ModelEntry>): set<string>
  {
    set e | e in valid :: DottedExtension(DomainText(e))
  }

  predicate AllHaveDomain(valid: seq<ModelEntry>)
  {
    forall e :: e in valid ==> e.domain.Some?
  }

  lemma ExtensionsOfSnoc(s: seq<ModelEntry>, x: ModelEntry)
    ensures ExtensionsOf(s + [x]) == ExtensionsOf(s) + {DottedExtension(DomainText(x))}
  {
    assert forall e :: e in s + [x] <==> e in s || e == x;
  }

  lemma AllHaveDomainSnoc(s: seq<ModelEntry>, x: ModelEntry)
    ensures AllHaveDomain(s + [x]) <==> AllHaveDomain(s) && x.domain.Some?
  {
    assert forall e :: e in s + [x] <==> e in s || e == x;
  }

  lemma CountWithSnoc(s: seq<ModelEntry>, x: ModelEntry, ext: string)
    ensures CountWith(s + [x], ext) == CountWith(s, ext) + (if DottedExtension(DomainText(x)) == ext then 1 else 0)
  {
    assert (s + [x])[..|s|] == s;
  }

  /** `counts` is `extension_counts` for `valid`: exactly the extensions that occur, each
      with its number of entries. */
  ghost predicate IsCountMap(counts: map<string, nat>, valid: seq<ModelEntry>)
  {
    && counts.Keys == ExtensionsOf(valid)
    && (forall x :: x in counts ==> counts[x] == CountWith(valid, x) && counts[x] > 0)
    && (forall x :: x !in counts ==> CountWith(valid, x) == 0)
  }

  /** The map after `extension_counts[ext] = extension_counts.get(ext, 0) + 1`. */
  function Bump(counts: map<string, nat>, ext: string): (next: map<string, nat>)
    ensures next.Keys == counts.Keys + {ext}
    ensures next[ext] == (if ext in counts then counts[ext] else 0) + 1
    ensures forall y :: y in counts && y != ext ==> next[y] == counts[y]
  {
    counts[ext := (if ext in counts then counts[ext] else 0) + 1]
  }

  /** Counting one more entry keeps `IsCountMap`. */
  lemma CountStep(counts: map<string, nat>, valid: seq<ModelEntry>, x: ModelEntry)
    requires IsCountMap(counts, valid)
    ensures IsCountMap(Bump(counts, DottedExtension(DomainText(x))), valid + [x])
  {
    CountKeysStep(counts, valid, x);
    CountValuesStep(counts, valid, x);
    CountZeroStep(counts, valid, x);
  }

  lemma CountKeysStep(counts: map<string, nat>, valid: seq<ModelEntry>, x: ModelEntry)
    requires IsCountMap(counts, valid)
    ensures Bump(counts, DottedExtension(DomainText(x))).Keys == ExtensionsOf(valid + [x])
  {
    ExtensionsOfSnoc(valid, x);
  }

  lemma CountValuesStep(counts: map<string, nat>, valid: seq<ModelEntry>, x: ModelEntry)
    requires IsCountMap(counts, valid)
    ensures var next := Bump(counts, DottedExtension(DomainText(x)));
      forall y :: y in next ==> next[y] == CountWith(valid + [x], y) && next[y] > 0
  {
    var next := Bump(counts, DottedExtension(DomainText(x)));
    forall y | y in next ensures next[y] == CountWith(valid + [x], y) && next[y] > 0 {
      CountWithSnoc(valid, x, y);
    }
  }

  lemma CountZeroStep(counts: map<string, nat>, valid: seq<ModelEntry>, x: ModelEntry)
    requires IsCountMap(counts, valid)
    ensures forall y :: y !in Bump(counts, DottedExtension(DomainText(x))) ==> CountWith(valid + [x], y) == 0
  {
    forall y | y !in Bump(counts, DottedExtension(DomainText(x))) ensures CountWith(valid + [x], y) == 0 {
      CountWithSnoc(valid, x, y);
    }
  }

  /** The `extension_counts` loop. `domain_obj["domain"]` raises on an entry without a
      domain (ok is then false); otherwise the map sends each dotted extension that
      occurs to the number of entries that have it, and has no other key. */
  method ExtensionCounts(valid: seq<ModelEntry>) returns (ok: bool, counts: map<string, nat>)
    ensures ok <==> AllHaveDomain(valid)
    ensures ok ==> counts.Keys == ExtensionsOf(valid)
    ensures ok ==> forall x :: x in counts ==> counts[x] == CountWith(valid, x) && counts[x] > 0
  {
    counts := map[];
    var i := 0;
    while i < |valid|
      invariant 0 <= i <= |valid|
      invariant AllHaveDomain(valid[..i])
      invariant IsCountMap(counts, valid[..i])
    {
      if valid[i].domain.None? {
        assert valid[i] in valid;
        return false, counts;
      }
      var ext := DottedExtension(DomainText(valid[i]));
      assert valid[..i + 1] == valid[..i] + [valid[i]];
      AllHaveDomainSnoc(valid[..i], valid[i]);
      CountStep(counts, valid[..i], valid[i]);
      counts := Bump(counts, ext);
      i := i + 1;
    }
    assert valid[..|valid|] == valid;
    ok := true;
  }

  /** The rule before `return valid_domains`: at least five entries, every one with a
      domain, and at least min(2, |extensions|) distinct extensions among them. */
  predicate Accepted(valid: seq<ModelEntry>, extensions: seq<string>)
  {
    AllHaveDomain(valid) && |valid| >= 5 && |ExtensionsOf(valid)| >= Min(2, |extensions|)
  }

  /** The reply is used: it parsed, every element is well formed, and the acceptance rule
      holds for its entries with an allowed extension. */
  predicate ReplyAccepted(reply: Option<seq<ReplyItem>>, exts: seq<string>)
  {
    reply.Some? && WellFormed(reply.value) && Accepted(ValidDomains(Entries(reply.value), exts), exts)
  }

  /** What `suggest_domains` returns, for the parsed reply (None when the model call
      failed or no JSON array could be parsed). */
  function SuggestionsFor(idea: string, style: string, extensions: seq<string>, n: int,
                          reply: Option<seq<ReplyItem>>): seq<ModelEntry>
  {
    var exts := if |extensions| == 0 then DefaultExtensions else extensions;
    if ReplyAccepted(reply, exts) then ValidDomains(Entries(reply.value), exts)
    else FallbackDomains(idea, style, exts, n)
  }

  /** `suggest_domains` after the model call: the validated reply when the acceptance rule
      holds, otherwise (a failed call, a malformed element, too few or too uniform valid
      entries) the enhanced fallback for the same extensions. */
  method SuggestDomains(idea: string, style: string, extensions: seq<string>, n: int,
                        reply: Option<seq<ReplyItem>>) returns (domains: seq<ModelEntry>)
    ensures domains == SuggestionsFor(idea, style, extensions, n, reply)
    ensures var exts := if |extensions| == 0 then DefaultExtensions else extensions;
      ReplyAccepted(reply, exts)
      ==> forall e :: e in domains ==> e in Entries(reply.value) && DottedExtension(DomainText(e)) in exts
    ensures var exts := if |extensions| == 0 then DefaultExtensions else extensions;
      !ReplyAccepted(reply, exts) ==> domains == FallbackDomains(idea, style, exts, n)
  {
    var exts := if |extensions| == 0 then DefaultExtensions else extensions;
    if reply.None? {
      domains := GenerateEnhancedFallbackDomains(idea, style, exts, n);
      return;
    }
    var ok, valid := ValidateDomainExtensions(reply.value, exts);
    if !ok {
      domains := GenerateEnhancedFallbackDomains(idea, style, exts, n);
      return;
    }
    var accepted := CheckAccepted(valid, exts);
    if accepted {
      domains := valid;
    } else {
      domains := GenerateEnhancedFallbackDomains(idea, style, exts, n);
    }
  }

  /** The acceptance test on the validated reply, with the counts map. */
  method CheckAccepted(valid: seq<ModelEntry>, exts: seq<string>) returns (accepted: bool)
    ensures accepted == Accepted(valid, exts)
  {
    var ok, counts := ExtensionCounts(valid);
    if ok {
      assert |counts| == |ExtensionsOf(valid)|;
    }
    accepted := ok && |valid| >= 5 && |counts| >= Min(2, |exts|);
  }

  // ---------------------------------------------------------------------------
  // The enhanced fallback generator

  const StopWords: set<string> := {"the", "and", "for", "with", "have", "hello"}

  predicate IsKeyWord(w: string) { |w| > 2 && w !in StopWords }

  predicate IsAsciiAlnum(c: char)
  {
    'a' <= c <= 'z' || 'A' <= c <= 'Z' || '0' <= c <= '9'
  }

  /** `re.sub(r'[^a-zA-Z0-9]', '', s)`. */
  function AlnumOnly(s: string): string
  {
    Filter(s, IsAsciiAlnum)
  }

  /** The words of the lower-cased idea longer than two characters that are not stop
      words, in order. */
  function KeyWords(idea: string): (r: seq<string>)
    ensures forall w :: w in r ==> |w| > 2 && w !in StopWords
  {
    var words := Words(Lower(idea), PythonWhitespace);
    FilterFacts(words, IsKeyWord);
    Filter(words, IsKeyWord)
  }

  /** A text put before or after the stem of a fallback name. */
  datatype Affix = Before(text: string) | After(text: string)

  function Attach(w: string, a: Affix): string
  {
    if a.Before? then a.text + w else w + a.text
  }

  /** The affixes of the twelve names for a style, in the source's order; the default
      style's first name is the stem itself. */
  function StyleAffixes(style: string): (r: seq<Affix>)
    ensures |r| == 12
  {
    if style == "moroccan" then
      [Before("dar"), Before("souk"), Before("atlas"), Before("casa"), Before("maroc"), Before("medina"),
       Before("riad"), Before("fes"), Before("rabat"), Before("agadir"), Before("tanger"), Before("sahara")]
    else if style == "pro" then
      [After("pro"), After("solutions"), Before("global"), After("group"), Before("elite"), After("corp"),
       Before("prime"), After("systems"), Before("apex"), After("enterprise"), Before("summit"), Before("nexus")]
    else if style == "funny" then
      [After("ify"), Before("super"), After("mania"), Before("mega"), After("zilla"), Before("ultra"),
       After("rama"), Before("crazy"), After("tastic"), Before("epic"), After("boom"), Before("wild")]
    else
      [After(""), Before("my"), After("hub"), After("zone"), Before("go"), After("app"),
       Before("best"), After("now"), Before("top"), Before("new"), After("web"), Before("smart")]
  }

  /** The twelve names the fallback builds around the stem `w` for a style. */
  function StyleNames(w: string, style: string): seq<string>
  {
    var affixes := StyleAffixes(style);
    seq(12, k requires 0 <= k < 12 => Attach(w, affixes[k]))
  }

  /** The twelve base names of the fallback when the idea has a key word (built from its
      first key word cut to six characters), otherwise three. */
  function BaseNames(idea: string, style: string): (names: seq<string>)
    ensures |names| == if |KeyWords(idea)| > 0 then 12 else 3
  {
    var keyWords := KeyWords(idea);
    if |keyWords| > 0 then StyleNames(Prefix(keyWords[0], 6), style)
    else
      var clean := AlnumOnly(Lower(idea));
      [Prefix(clean, 8), "my" + Prefix(clean, 6), Prefix(clean, 6) + "hub"]
  }

  /** `name` is `w` with something added before or after it. */
  predicate HasStem(name: string, w: string)
  {
    StartsWith(name, w) || EndsWith(name, w)
  }

  lemma AttachStem(w: string, a: Affix)
    ensures HasStem(Attach(w, a), w)
  {
    var name := Attach(w, a);
    if a.Before? {
      assert name[|name| - |w|..] == w;
    } else {
      assert name[..|w|] == w;
    }
  }

  /** Every name of a style is the stem with a prefix or a suffix added. */
  lemma StyleNamesStem(w: string, style: string)
    ensures forall name :: name in StyleNames(w, style) ==> HasStem(name, w)
  {
    var names := StyleNames(w, style);
    forall k | 0 <= k < 12 ensures HasStem(names[k], w) {
      AttachStem(w, StyleAffixes(style)[k]);
    }
  }

  /** With a key word, every base name is its first six characters with a style prefix
      or suffix added (the stem itself among the default names). */
  lemma BaseNamesStem(idea: string, style: string)
    requires |KeyWords(idea)| > 0
    ensures var w := Prefix(KeyWords(idea)[0], 6);
      |w| >= 3 && forall name :: name in BaseNames(idea, style) ==> HasStem(name, w)
  {
    StyleNamesStem(Prefix(KeyWords(idea)[0], 6), style);
  }

  function Max(a: int, b: int): int { if a >= b then a else b }

  /** `max(1, n // len(extensions))`; Python's `//` by a positive number is Dafny's `/`. */
  function PerExtension(n: int, extCount: nat): (dpe: nat)
    requires extCount > 0
    ensures dpe >= 1
  {
    Max(1, n / extCount)
  }

  lemma MulLe(a: int, b: int, d: nat)
    requires a <= b
    ensures a * d <= b * d
  {
    assert b * d - a * d == (b - a) * d;
  }

  /** Euclidean division is unique: q·d + r with 0 <= r < d divides back to q, r. */
  lemma DivMulAdd(q: int, d: int, r: int)
    requires d > 0 && 0 <= r < d
    ensures (q * d + r) / d == q && (q * d + r) % d == r
  {
    var x := q * d + r;
    var q', r' := x / d, x % d;
    assert x == q' * d + r';
    if q' < q {
      MulLe(q' + 1, q, d);
    } else if q' > q {
      MulLe(q + 1, q', d);
    }
  }

  lemma BlockIndex(e: nat, d: nat, j: nat, i: nat)
    requires d > 0 && j < e && i < d
    ensures j * d + i < e * d && (j * d + i) / d == j
  {
    MulLe(j + 1, e, d);
    assert (j + 1) * d == j * d + d;
    DivMulAdd(j, d, i);
  }

  lemma BlockBound(e: nat, d: nat, k: nat)
    requires d > 0 && k < e * d
    ensures k / d < e
  {
    var q := k / d;
    assert k == q * d + k % d;
    if q >= e {
      MulLe(e, q, d);
    }
  }

  /** Entry k of the per-extension blocks: base name `k % |base|`, extension `k / dpe`. */
  function BlockEntry(base: seq<string>, exts: seq<string>, dpe: nat, k: nat): ModelEntry
    requires |base| > 0 && dpe > 0 && k < |exts| * dpe
  {
    BlockBound(|exts|, dpe, k);
    ModelEntry(Some(base[k % |base|] + exts[k / dpe]))
  }

  /** Filler entry i: base name `i % |base|`, the number i, extension `i % |exts|`. */
  function FillerEntry(base: seq<string>, exts: seq<string>, i: nat): ModelEntry
    requires |base| > 0 && |exts| > 0
  {
    ModelEntry(Some(base[i % |base|] + NatToString(i) + exts[i % |exts|]))
  }

  /** The fallback's extensions: the given ones, or ['.com', '.ma'] when none. */
  function FallbackExts(extensions: seq<string>): (exts: seq<string>)
    ensures |exts| > 0
    ensures |extensions| == 0 ==> exts == FallbackExtensions
    ensures |extensions| > 0 ==> exts == extensions
  {
    if |extensions| == 0 then FallbackExtensions else extensions
  }

  /** The generated list for base names `base`: |exts|·dpe block entries, one block of
      dpe per extension, then n − |exts|·dpe numbered filler entries. It has
      max(n, |exts|·dpe) entries, every one with a domain. */
  function FallbackFrom(base: seq<string>, exts: seq<string>, n: int): (r: seq<ModelEntry>)
    requires |base| > 0 && |exts| > 0
    ensures |r| == Max(n, |exts| * PerExtension(n, |exts|))
    ensures AllHaveDomain(r)
  {
    var dpe := PerExtension(n, |exts|);
    var blocks := seq(|exts| * dpe, k requires 0 <= k < |exts| * dpe => BlockEntry(base, exts, dpe, k));
    var filler := seq(Max(0, n - |exts| * dpe), i requires 0 <= i => FillerEntry(base, exts, i));
    blocks + filler
  }

  /** `generate_enhanced_fallback_domains` in closed form. */
  function FallbackDomains(idea: string, style: string, extensions: seq<string>, n: int)
    : (r: seq<ModelEntry>)
    ensures |r| == Max(n, |FallbackExts(extensions)| * PerExtension(n, |FallbackExts(extensions)|))
    ensures AllHaveDomain(r)
  {
    FallbackFrom(BaseNames(idea, style), FallbackExts(extensions), n)
  }

  /** With at least as many slots as extensions the fallback has exactly n entries. */
  lemma FallbackLength(idea: string, style: string, extensions: seq<string>, n: int)
    requires n >= |FallbackExts(extensions)|
    ensures |FallbackDomains(idea, style, extensions, n)| == n
  {
    var e := |FallbackExts(extensions)|;
    var q := n / e;
    assert n == q * e + n % e;
    assert q >= 1;
    assert e * q <= n;
  }

  /** Entry i of block j ends with extension j: the blocks come in extension order, dpe
      entries each, and cycle through the base names. */
  lemma FallbackBlocks(base: seq<string>, exts: seq<string>, n: int, j: nat, i: nat)
    requires |base| > 0 && j < |exts| && i < PerExtension(n, |exts|)
    ensures var dpe := PerExtension(n, |exts|);
      var r := FallbackFrom(base, exts, n);
      j * dpe + i < |r|
      && r[j * dpe + i] == ModelEntry(Some(base[(j * dpe + i) % |base|] + exts[j]))
      && EndsWith(r[j * dpe + i].domain.value, exts[j])
  {
    var dpe := PerExtension(n, |exts|);
    BlockIndex(|exts|, dpe, j, i);
    var d := FallbackFrom(base, exts, n)[j * dpe + i].domain.value;
    assert d == base[(j * dpe + i) % |base|] + exts[j];
    assert d[|d| - |exts[j]|..] == exts[j];
  }

  /** The filler follows the blocks: its entry i carries the number i. */
  lemma FallbackFiller(base: seq<string>, exts: seq<string>, n: int, i: nat)
    requires |base| > 0 && |exts| > 0 && |exts| * PerExtension(n, |exts|) + i < n
    ensures var r := FallbackFrom(base, exts, n);
      var k := |exts| * PerExtension(n, |exts|) + i;
      k < |r| && r[k] == ModelEntry(Some(base[i % |base|] + NatToString(i) + exts[i % |exts|]))
  {
  }

  /** `generate_enhanced_fallback_domains`: the default extensions, the base names, then
      the appending loops. */
  method GenerateEnhancedFallbackDomains(idea: string, style: string, extensions: seq<string>, n: int)
    returns (domains: seq<ModelEntry>)
    ensures domains == FallbackDomains(idea, style, extensions, n)
  {
    var exts := FallbackExts(extensions);
    var base := BaseNames(idea, style);
    domains := AppendFallbackDomains(base, exts, n);
  }

  /** The two appending loops: one block of dpe names per extension, then the numbered
      filler up to n. */
  method AppendFallbackDomains(base: seq<string>, exts: seq<string>, n: int)
    returns (domains: seq<ModelEntry>)
    requires |base| > 0 && |exts| > 0
    ensures domains == FallbackFrom(base, exts, n)
  {
    var dpe := PerExtension(n, |exts|);
    ghost var blocks := seq(|exts| * dpe, k requires 0 <= k < |exts| * dpe => BlockEntry(base, exts, dpe, k));
    ghost var filler := seq(Max(0, n - |exts| * dpe), i requires 0 <= i => FillerEntry(base, exts, i));
    domains := [];
    var extIndex := 0;
    while extIndex < |exts|
      invariant 0 <= extIndex <= |exts|
      invariant extIndex * dpe <= |exts| * dpe
      invariant domains == blocks[..extIndex * dpe]
    {
      var start := extIndex * dpe;
      var i := 0;
      while i < dpe
        invariant 0 <= i <= dpe
        invariant start + i <= |exts| * dpe
        invariant domains == blocks[..start + i]
      {
        BlockIndex(|exts|, dpe, extIndex, i);
        var baseIndex := (start + i) % |base|;
        domains := domains + [ModelEntry(Some(base[baseIndex] + exts[extIndex]))];
        assert blocks[..start + i + 1] == blocks[..start + i] + [blocks[start + i]];
        i := i + 1;
      }
      assert start + dpe == (extIndex + 1) * dpe;
      MulLe(extIndex + 1, |exts|, dpe);
      extIndex := extIndex + 1;
    }
    assert domains == blocks;
    var remaining := n - |domains|;
    assert |filler| == Max(0, remaining);
    var i := 0;
    while i < remaining
      invariant 0 <= i <= |filler|
      invariant domains == blocks + filler[..i]
    {
      assert filler[..i + 1] == filler[..i] + [filler[i]];
      domains := domains + [FillerEntry(base, exts, i)];
      i := i + 1;
    }
    assert filler[..i] == filler;
  }

  // ---------------------------------------------------------------------------
  // Request validation and the response

  /** A JSON value as far as the request checks look at it: a string, an array, an
      object, or another scalar (null, a number or a boolean). */
  datatype Json = JString(s: string) | JList(items: seq<Json>) | JObject | JScalar

  /** The request body; a field is None when its key is absent. */
  datatype Request = Request(idea: Option<Json>, style: Option<Json>, extensions: Option<Json>)

  datatype RequestError = InvalidIdea | InvalidStyle | InvalidExtensions | TooManyExtensions

  datatype Validated = Validated(idea: string, style: string, extensions: seq<string>)

  /** The outcome of the checks: a valid request, a 400 with its error, or an exception
      raised before the handler's `try` (a value without `.strip()`, or an unhashable
      style looked up in the style table). */
  datatype Checked = Valid(request: Validated) | Rejected(error: RequestError) | Raised

  /** `data.get("idea", "")`. */
  function IdeaJson(req: Request): Json
  {
    if req.idea.Some? then req.idea.value else JString("")
  }

  /** The stripped idea; only a string can be stripped. */
  function IdeaOf(req: Request): string
  {
    if IdeaJson(req).JString? then Strip(IdeaJson(req).s, PythonWhitespace) else ""
  }

  predicate IdeaOk(req: Request)
  {
    IdeaJson(req).JString? && 1 <= |IdeaOf(req)| <= 100
  }

  /** `data.get("style", "default")`. */
  function StyleJson(req: Request): Json
  {
    if req.style.Some? then req.style.value else JString("default")
  }

  /** An array or an object cannot be looked up in a dict: `in` raises on it. */
  predicate Hashable(j: Json)
  {
    !j.JList? && !j.JObject?
  }

  predicate KnownStyle(j: Json)
  {
    j.JString? && j.s in Styles
  }

  function ExtensionsJson(req: Request): Json
  {
    if req.extensions.Some? then req.extensions.value else JList([])
  }

  predicate IsStringList(j: Json)
  {
    j.JList? && forall k :: 0 <= k < |j.items| ==> j.items[k].JString?
  }

  function Strings(items: seq<Json>): (r: seq<string>)
    requires forall k :: 0 <= k < |items| ==> items[k].JString?
    ensures |r| == |items| && forall k :: 0 <= k < |r| ==> r[k] == items[k].s
  {
    seq(|items|, k requires 0 <= k < |items| => items[k].s)
  }

  /** The checks of `api_suggest_fast`, in the source's order, then the normalisation
      of the extensions. Each outcome is characterised by exactly the checks that come
      before it; a request that passes has a stripped idea of 1 to 100 characters, a
      known style and at most ten extensions, each starting with a dot. */
  function ValidateRequest(req: Request): (c: Checked)
    ensures c == Raised <==>
      !IdeaJson(req).JString? || (IdeaOk(req) && !Hashable(StyleJson(req)))
    ensures c == Rejected(InvalidIdea) <==>
      IdeaJson(req).JString? && (|IdeaOf(req)| == 0 || |IdeaOf(req)| > 100)
    ensures c == Rejected(InvalidStyle) <==>
      IdeaOk(req) && Hashable(StyleJson(req)) && !KnownStyle(StyleJson(req))
    ensures c == Rejected(InvalidExtensions) <==>
      IdeaOk(req) && KnownStyle(StyleJson(req)) && !IsStringList(ExtensionsJson(req))
    ensures c == Rejected(TooManyExtensions) <==>
      && IdeaOk(req) && KnownStyle(StyleJson(req))
      && IsStringList(ExtensionsJson(req)) && |ExtensionsJson(req).items| > 10
    ensures c.Valid? <==>
      && IdeaOk(req) && KnownStyle(StyleJson(req))
      && IsStringList(ExtensionsJson(req)) && |ExtensionsJson(req).items| <= 10
    ensures c.Valid? ==>
      && c.request.idea == IdeaOf(req) && c.request.style == StyleJson(req).s
      && c.request.extensions == NormaliseExtensions(Strings(ExtensionsJson(req).items))
      && |c.request.extensions| <= 10
      && forall k :: 0 <= k < |c.request.extensions| ==> StartsWith(c.request.extensions[k], ".")
  {
    var idea := IdeaJson(req);
    var style := StyleJson(req);
    var exts := ExtensionsJson(req);
    if !idea.JString? then Raised
    else if |IdeaOf(req)| == 0 || |IdeaOf(req)| > 100 then Rejected(InvalidIdea)
    else if !Hashable(style) then Raised
    else if !KnownStyle(style) then Rejected(InvalidStyle)
    else if !IsStringList(exts) then Rejected(InvalidExtensions)
    else if |exts.items| > 10 then Rejected(TooManyExtensions)
    else Valid(Validated(IdeaOf(req), style.s, NormaliseExtensions(Strings(exts.items))))
  }

  /** A blank idea is rejected whatever else the request holds. */
  lemma BlankIdeaRejected(req: Request)
    requires req.idea.Some? && req.idea.value.JString?
    requires forall k :: 0 <= k < |req.idea.value.s| ==> req.idea.value.s[k] in PythonWhitespace
    ensures ValidateRequest(req) == Rejected(InvalidIdea)
  {
  }

  /** The main domain of every suggestion, in order. */
  function MainNames(raw: seq<ModelEntry>): seq<string>
    requires AllHaveDomain(raw)
  {
    seq(|raw|, k requires 0 <= k < |raw| => assert raw[k] in raw; raw[k].domain.value)
  }

  /** `all_domains_to_check`: the main domain of every suggestion, in order; an entry
      without a domain raises (ok is then false). */
  method MainDomains(raw: seq<ModelEntry>) returns (ok: bool, checks: seq<string>)
    ensures ok <==> AllHaveDomain(raw)
    ensures ok ==> checks == MainNames(raw)
  {
    checks := [];
    var i := 0;
    while i < |raw|
      invariant 0 <= i <= |raw|
      invariant AllHaveDomain(raw[..i])
      invariant |checks| == i && forall k :: 0 <= k < i ==> checks[k] == raw[k].domain.value
    {
      if raw[i].domain.None? {
        assert raw[i] in raw;
        return false, checks;
      }
      assert raw[..i + 1] == raw[..i] + [raw[i]];
      checks := checks + [raw[i].domain.value];
      i := i + 1;
    }
    assert raw[..|raw|] == raw;
    ok := true;
  }

  /** Sorting the available entries by domain and cutting the first two batches of ten:
      the response lists the alphabetically first (up to twenty) available domains, all
      with status "available", and reports how many were available in all. */
  method BuildResponse(results: seq<(string, bool)>, style: string) returns (resp: Response)
    ensures resp == Batch(SortByDomain(AvailableOf(results)), style)
    ensures resp.total == |AvailableOf(results)|
    ensures forall s :: s in resp.initial + resp.more ==> s.status == Available && (s.domain, true) in results
    ensures forall i, j :: 0 <= i < j < |resp.initial + resp.more| ==>
      LexLe((resp.initial + resp.more)[i].domain, (resp.initial + resp.more)[j].domain)
  {
    var available := CollectAvailable(results);
    var sorted := SortByDomain(available);
    resp := Batch(sorted, style);
    AvailableOfMembers(results);
    forall s | s in resp.initial + resp.more
      ensures s.status == Available && (s.domain, true) in results
    {
      assert s in sorted;
      assert s in multiset(sorted);
      assert s in available;
    }
  }

  /** The handler's outcome: the response, a 400 with its error, the handler's own 500
      (its `except`, which reports the style), or an exception the framework turns into
      a plain 500. */
  datatype ApiReply =
    | Ok(response: Response)
    | BadRequest(error: RequestError)
    | ServerError(styleUsed: string)
    | Unhandled

  /** `api_suggest_fast` end to end: validation, normalisation, the suggestion list, the
      main domains to check, and the sorted batches of the available ones. */
  method ApiSuggestFast(req: Request, reply: Option<seq<ReplyItem>>, available: string -> bool)
    returns (out: ApiReply)
    ensures ValidateRequest(req) == Raised <==> out.Unhandled?
    ensures ValidateRequest(req).Rejected? <==> out.BadRequest?
    ensures out.BadRequest? ==> out.error == ValidateRequest(req).error
    ensures ValidateRequest(req).Valid? ==> out.Ok?
    ensures out.Ok? ==> var v := ValidateRequest(req).request;
      var raw := SuggestionsFor(v.idea, v.style, v.extensions, SuggestionCount, reply);
      && AllHaveDomain(raw)
      && out.response == Batch(SortByDomain(AvailableOf(ResultsFor(MainNames(raw), available))), v.style)
      && forall s :: s in out.response.initial + out.response.more ==>
           (exists e :: e in raw && e.domain == Some(s.domain)) && available(s.domain)
  {
    var checked := ValidateRequest(req);
    if checked.Raised? {
      return Unhandled;
    }
    if checked.Rejected? {
      return BadRequest(checked.error);
    }
    var v := checked.request;
    var raw := SuggestDomains(v.idea, v.style, v.extensions, SuggestionCount, reply);
    var ok, checks := MainDomains(raw);
    if !ok {
      return ServerError(v.style);
    }
    var results := ResultsFor(checks, available);
    var resp := BuildResponse(results, v.style);
    forall s | s in resp.initial + resp.more
      ensures (exists e :: e in raw && e.domain == Some(s.domain)) && available(s.domain)
    {
      var keys := DistinctInOrder(checks);
      var k :| 0 <= k < |results| && results[k] == (s.domain, true);
      assert keys[k] == s.domain && keys[k] in checks;
      var m :| 0 <= m < |checks| && checks[m] == s.domain;
      assert raw[m] in raw && raw[m].domain == Some(s.domain);
    }
    out := Ok(resp);
  }
}
