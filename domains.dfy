/** Domain-name logic shared by both server revisions and the client: the result
    entry, the registrable extension of a name, the normalisation of requested
    extensions, sorting of available entries and the initial/more batching of a
    response. */
module Domains {
  import opened Text

  /** One entry of a suggestion list (`{domain, status, alt}`). An entry the
      server builds without an `alt` key is read by the client as `alt: []`. */
  datatype Suggestion = Suggestion(domain: string, status: string, alt: seq<string>)

  const Available: string := "available"

  /** A name of three or more labels whose last label is "ma". */
  predicate IsCompoundMa(domain: string)
  {
    LabelCount(domain) >= 3 && LastLabel(domain) == "ma"
  }

  /** `ext` is a dot-free label followed by ".ma" that ends `domain` after a dot. */
  predicate CompoundSuffix(domain: string, ext: string)
  {
    && EndsWith(domain, ext) && EndsWith(ext, ".ma") && '.' !in ext[..|ext| - 3]
    && |ext| < |domain| && domain[|domain| - |ext| - 1] == '.'
  }

  /** `".".join(parts[-2:])`: the last two labels of a name with at least three. */
  function LastTwoLabels(domain: string): string
    requires LabelCount(domain) >= 3
  {
    var parts := Split(domain, '.');
    parts[|parts| - 2] + "." + parts[|parts| - 1]
  }

  /** For a compound ".ma" name the last two labels are a dot-free label and ".ma",
      ending the name after a dot. */
  lemma LastTwoLabelsFacts(domain: string)
    requires IsCompoundMa(domain)
    ensures CompoundSuffix(domain, LastTwoLabels(domain))
  {
    var parts := Split(domain, '.');
    var n := |parts|;
    CompoundFacts(domain);
    LabelThenMa(domain, parts[n - 2], parts[n - 1]);
  }

  /** A dot-free label, a dot and "ma" that end `domain` after a dot. */
  lemma LabelThenMa(domain: string, a: string, b: string)
    requires '.' !in a && b == "ma"
    requires var ext := a + "." + b;
      EndsWith(domain, ext) && |ext| < |domain| && domain[|domain| - |ext| - 1] == '.'
    ensures CompoundSuffix(domain, a + "." + b)
  {
    var ext := a + "." + b;
    assert ext[..|ext| - 3] == a;
    assert ext[|ext| - 3..] == ".ma";
  }

  /** `extract_extension`: the last label, except that a name of three or more labels
      ending in "ma" keeps its last two labels ("example.co.ma" gives "co.ma"). The
      result is a suffix of the name; for a compound ".ma" name it is one dot-free
      label, a dot and "ma", preceded by a dot in the name. */
  function ExtractExtension(domain: string): (ext: string)
    ensures EndsWith(domain, ext)
    ensures !IsCompoundMa(domain) ==> ext == LastLabel(domain)
    ensures IsCompoundMa(domain) ==> CompoundSuffix(domain, ext)
  {
    if IsCompoundMa(domain) then
      LastTwoLabelsFacts(domain);
      LastTwoLabels(domain)
    else
      LastLabelFacts(domain);
      LastLabel(domain)
  }

  /** The last two labels of a name with at least three end the name, after a dot,
      and the first of them has no dot. */
  lemma CompoundFacts(domain: string)
    requires LabelCount(domain) >= 3
    ensures var parts := Split(domain, '.'); var n := |parts|;
      var ext := parts[n - 2] + "." + parts[n - 1];
      && '.' !in parts[n - 2]
      && EndsWith(domain, ext) && |ext| < |domain| && domain[|domain| - |ext| - 1] == '.'
  {
    var parts := Split(domain, '.');
    var n := |parts|;
    assert '.' !in parts[n - 2] by { SplitPartsFree(domain, '.'); }
    var front := Join(parts[..n - 2], '.');
    assert domain == front + "." + parts[n - 2] + "." + parts[n - 1] by {
      SplitJoinBack(domain, '.');
      JoinLastTwo(parts, '.');
    }
    SuffixAfterSeparator(front, '.', parts[n - 2], parts[n - 1]);
  }

  /** Joining three or more parts: the front parts, then the last two. */
  lemma JoinLastTwo(parts: seq<string>, sep: char)
    requires |parts| >= 3
    ensures var n := |parts|;
      Join(parts, sep) == Join(parts[..n - 2], sep) + [sep] + parts[n - 2] + [sep] + parts[n - 1]
  {
    var n := |parts|;
    var front := parts[..n - 2];
    var init := parts[..n - 1];
    calc {
      Join(parts, sep);
      Join(init, sep) + [sep] + parts[n - 1];
      { assert init[..n - 2] == front; }
      Join(front, sep) + [sep] + parts[n - 2] + [sep] + parts[n - 1];
    }
  }

  /** Two labels after a separator end the whole string, with the separator
      before them. */
  lemma SuffixAfterSeparator(front: string, sep: char, a: string, b: string)
    ensures var s := front + [sep] + a + [sep] + b; var ext := a + [sep] + b;
      EndsWith(s, ext) && |ext| < |s| && s[|s| - |ext| - 1] == sep
  {
    var s := front + [sep] + a + [sep] + b;
    var ext := a + [sep] + b;
    assert s[|s| - |ext|..] == ext;
  }

  /** The compound rule: a dot-free label, a dot and "ma" after at least one more
      dot is the extension ("example.co.ma" gives "co.ma"). */
  lemma ExtractCompound(p: string, x: string)
    requires '.' !in x
    ensures ExtractExtension(p + "." + x + ".ma") == x + ".ma"
  {
    var d := p + "." + x + ".ma";
    assert d == (p + "." + x) + "." + "ma";
    SplitAppendPart(p, x, '.');
    SplitAppendPart(p + "." + x, "ma", '.');
    var parts := Split(d, '.');
    assert parts == Split(p, '.') + [x] + ["ma"];
    assert IsCompoundMa(d);
    assert LastTwoLabels(d) == x + "." + "ma";
    assert x + "." + "ma" == x + ".ma";
  }

  /** Any other last label is the extension ("example.com" gives "com"). */
  lemma ExtractSimple(p: string, x: string)
    requires '.' !in x && x != "ma"
    ensures ExtractExtension(p + "." + x) == x
  {
    LastLabelAfterDot(p, x);
  }

  /** A two-label ".ma" name has extension "ma" ("shop.ma" gives "ma"). */
  lemma ExtractTwoLabelMa(a: string)
    requires '.' !in a
    ensures ExtractExtension(a + ".ma") == "ma"
  {
    var d := a + ".ma";
    assert d == a + "." + "ma";
    SplitNoSep(a, '.');
    SplitAppendPart(a, "ma", '.');
    assert Split(d, '.') == [a, "ma"];
  }

  /** A name without a dot is its own extension. */
  lemma ExtractNoDot(a: string)
    requires '.' !in a
    ensures ExtractExtension(a) == a
  {
    LastLabelNoDot(a);
  }

  lemma ExtractExtensionCoMa()
    ensures ExtractExtension("example.co.ma") == "co.ma"
  {
    assert "example" + "." + "co" + ".ma" == "example.co.ma";
    ExtractCompound("example", "co");
  }

  lemma ExtractExtensionCom()
    ensures ExtractExtension("example.com") == "com"
  {
    assert "example" + "." + "com" == "example.com";
    ExtractSimple("example", "com");
  }

  lemma ExtractExtensionMa()
    ensures ExtractExtension("shop.ma") == "ma"
  {
    assert "shop" + ".ma" == "shop.ma";
    ExtractTwoLabelMa("shop");
  }

  /** One requested extension with a leading dot added where it is missing. */
  function NormaliseExtension(ext: string): (r: string)
    ensures StartsWith(r, ".")
    ensures r == ext <==> StartsWith(ext, ".")
    ensures r != ext ==> r == "." + ext
  {
    if StartsWith(ext, ".") then ext else "." + ext
  }

  /** `[ext if ext.startswith('.') else f'.{ext}' for ext in extensions]`: same length,
      same order, every entry dotted, dotted entries untouched. */
  function NormaliseExtensions(exts: seq<string>): (r: seq<string>)
    ensures |r| == |exts|
    ensures forall i :: 0 <= i < |r| ==> StartsWith(r[i], ".")
    ensures forall i :: 0 <= i < |r| ==> r[i] == exts[i] || r[i] == "." + exts[i]
    ensures forall i :: 0 <= i < |r| && StartsWith(exts[i], ".") ==> r[i] == exts[i]
  {
    seq(|exts|, i requires 0 <= i < |exts| => NormaliseExtension(exts[i]))
  }

  /** Normalising twice is normalising once. */
  lemma NormaliseIdempotent(exts: seq<string>)
    ensures NormaliseExtensions(NormaliseExtensions(exts)) == NormaliseExtensions(exts)
  {
    var once := NormaliseExtensions(exts);
    assert forall i :: 0 <= i < |once| ==> NormaliseExtension(once[i]) == once[i];
  }

  /** Sort key `(rank, domain)`, compared as Python compares tuples. */
  datatype Key = Key(rank: nat, name: string)

  predicate KeyLe(a: Key, b: Key)
  {
    a.rank < b.rank || (a.rank == b.rank && LexLe(a.name, b.name))
  }

  lemma KeyLeTotal(a: Key, b: Key)
    ensures KeyLe(a, b) || KeyLe(b, a)
  {
    LexLeTotal(a.name, b.name);
  }

  lemma KeyLeTransitive(a: Key, b: Key, c: Key)
    requires KeyLe(a, b) && KeyLe(b, c)
    ensures KeyLe(a, c)
  {
    if a.rank == b.rank == c.rank { LexLeTransitive(a.name, b.name, c.name); }
  }

  function KeyOf(s: Suggestion, rank: string -> nat): Key
  {
    Key(rank(s.domain), s.domain)
  }

  predicate SortedBy(s: seq<Suggestion>, rank: string -> nat)
  {
    forall i, j :: 0 <= i < j < |s| ==> KeyLe(KeyOf(s[i], rank), KeyOf(s[j], rank))
  }

  /** Inserts `x` into a sorted list, keeping it sorted. */
  function Insert(x: Suggestion, s: seq<Suggestion>, rank: string -> nat): (r: seq<Suggestion>)
    requires SortedBy(s, rank)
    ensures SortedBy(r, rank)
    ensures multiset(r) == multiset(s) + multiset{x}
  {
    if |s| == 0 then [x]
    else if KeyLe(KeyOf(x, rank), KeyOf(s[0], rank)) then
      InsertFrontSorted(x, s, rank);
      [x] + s
    else
      assert SortedBy(s[1..], rank);
      var tail := Insert(x, s[1..], rank);
      KeyLeTotal(KeyOf(x, rank), KeyOf(s[0], rank));
      HeadBelowAll(s[0], s[1..], x, tail, rank);
      assert s == [s[0]] + s[1..];
      [s[0]] + tail
  }

  lemma InsertFrontSorted(x: Suggestion, s: seq<Suggestion>, rank: string -> nat)
    requires SortedBy(s, rank) && |s| > 0
    requires KeyLe(KeyOf(x, rank), KeyOf(s[0], rank))
    ensures SortedBy([x] + s, rank)
  {
    forall j | 0 < j < |s| ensures KeyLe(KeyOf(x, rank), KeyOf(s[j], rank)) {
      KeyLeTransitive(KeyOf(x, rank), KeyOf(s[0], rank), KeyOf(s[j], rank));
    }
  }

  lemma HeadBelowAll(h: Suggestion, s: seq<Suggestion>, x: Suggestion, tail: seq<Suggestion>,
                     rank: string -> nat)
    requires SortedBy([h] + s, rank) && SortedBy(tail, rank)
    requires KeyLe(KeyOf(h, rank), KeyOf(x, rank))
    requires multiset(tail) == multiset(s) + multiset{x}
    ensures SortedBy([h] + tail, rank)
  {
    forall j | 0 <= j < |tail| ensures KeyLe(KeyOf(h, rank), KeyOf(tail[j], rank)) {
      assert tail[j] in multiset(tail);
      if tail[j] != x {
        assert tail[j] in multiset(s);
        var k :| 0 <= k < |s| && s[k] == tail[j];
        assert ([h] + s)[0] == h && ([h] + s)[k + 1] == s[k];
        assert KeyLe(KeyOf(([h] + s)[0], rank), KeyOf(([h] + s)[k + 1], rank));
      }
    }
  }

  /** Python's `list.sort(key=...)` by `(rank(domain), domain)`: a permutation of the
      input in ascending key order. */
  function SortBy(s: seq<Suggestion>, rank: string -> nat): (r: seq<Suggestion>)
    ensures SortedBy(r, rank)
    ensures multiset(r) == multiset(s)
  {
    if |s| == 0 then []
    else
      assert s == s[..|s| - 1] + [s[|s| - 1]];
      Insert(s[|s| - 1], SortBy(s[..|s| - 1], rank), rank)
  }

  /** Every entry has the same rank when only the domain is the key. */
  function NoRank(domain: string): nat { 0 }

  /** `available_domains.sort(key=lambda x: x["domain"])`: a permutation of the input
      with domains in ascending string order. */
  function SortByDomain(s: seq<Suggestion>): (r: seq<Suggestion>)
    ensures multiset(r) == multiset(s)
    ensures forall i, j :: 0 <= i < j < |r| ==> LexLe(r[i].domain, r[j].domain)
  {
    var r := SortBy(s, NoRank);
    assert forall i, j :: 0 <= i < j < |r| ==> KeyLe(KeyOf(r[i], NoRank), KeyOf(r[j], NoRank));
    r
  }

  function Min(a: int, b: int): int { if a <= b then a else b }

  /** The JSON body of a successful response. */
  datatype Response = Response(initial: seq<Suggestion>, more: seq<Suggestion>, total: nat, styleUsed: string)

  /** `initial = sorted[:10]`, `more = sorted[10:20]`, `total = len(sorted)`: the two
      batches together are the first min(20, total) entries, in order, each batch
      holds at most ten, and `more` is empty unless `initial` is full. */
  function Batch(sorted: seq<Suggestion>, style: string): (r: Response)
    ensures r.total == |sorted| && r.styleUsed == style
    ensures r.initial + r.more == sorted[..Min(20, |sorted|)]
    ensures |r.initial| == Min(10, |sorted|) && |r.more| <= 10
    ensures |r.more| > 0 ==> |r.initial| == 10
  {
    var a, b := Min(10, |sorted|), Min(20, |sorted|);
    assert sorted[..a] + sorted[a..b] == sorted[..b];
    Response(sorted[..a], sorted[a..b], |sorted|, style)
  }

  /** The entries of `results` (the availability dictionary's items, in its order)
      whose check came back true, as `{domain, status: "available"}` entries. */
  function AvailableOf(results: seq<(string, bool)>): (r: seq<Suggestion>)
  {
    if |results| == 0 then []
    else
      var last := results[|results| - 1];
      AvailableOf(results[..|results| - 1]) + (if last.1 then [Suggestion(last.0, Available, [])] else [])
  }

  lemma {:induction false} AvailableOfMembers(results: seq<(string, bool)>)
    ensures forall s :: s in AvailableOf(results) ==> s.status == Available && s.alt == []
    ensures forall d :: (exists s :: s in AvailableOf(results) && s.domain == d) <==> (d, true) in results
    decreases |results|
  {
    if |results| > 0 {
      var init := results[..|results| - 1];
      AvailableOfMembers(init);
      assert results == init + [results[|results| - 1]];
      forall d | (d, true) in results
        ensures exists s :: s in AvailableOf(results) && s.domain == d
      {
        if (d, true) !in init {
          assert results[|results| - 1] == (d, true);
          assert Suggestion(d, Available, []) in AvailableOf(results);
        }
      }
    }
  }

  /** The loop `for domain, is_available in availability_results.items(): if is_available:
      available_domains.append({...})`. */
  method CollectAvailable(results: seq<(string, bool)>) returns (available: seq<Suggestion>)
    ensures available == AvailableOf(results)
  {
    available := [];
    var i := 0;
    while i < |results|
      invariant 0 <= i <= |results|
      invariant available == AvailableOf(results[..i])
    {
      assert results[..i + 1][..i] == results[..i];
      if results[i].1 {
        available := available + [Suggestion(results[i].0, Available, [])];
      }
      i := i + 1;
    }
    assert results[..|results|] == results;
  }

  /** The distinct entries of `s` in first-occurrence order: the keys of a dictionary
      filled from `s`. */
  function DistinctInOrder(s: seq<string>): (r: seq<string>)
    ensures forall x :: x in r <==> x in s
    ensures forall i, j :: 0 <= i < j < |r| ==> r[i] != r[j]
  {
    if |s| == 0 then []
    else
      var init := DistinctInOrder(s[..|s| - 1]);
      assert s == s[..|s| - 1] + [s[|s| - 1]];
      if s[|s| - 1] in init then init else init + [s[|s| - 1]]
  }

  /** The availability dictionary's items for the checked names, under the verdict
      `available` of the (cached, so per-name deterministic) WHOIS check. */
  function ResultsFor(checks: seq<string>, available: string -> bool): seq<(string, bool)>
  {
    var keys := DistinctInOrder(checks);
    seq(|keys|, k requires 0 <= k < |keys| => (keys[k], available(keys[k])))
  }
}
