/** String helpers shared by the server and the client models: the one-character
    `split`/`join` of Python and JavaScript, dot labels of a domain name, prefix,
    suffix and substring tests, ASCII lower-casing, whitespace stripping and
    Python's whitespace `split()`, code-point ordering of strings, and decimal
    rendering of a natural number. */
module Text {

  /** Joins one or more parts with `sep` between neighbours (`sep.join(parts)`). */
  function Join(parts: seq<string>, sep: char): string
    requires |parts| >= 1
  {
    if |parts| == 1 then parts[0]
    else Join(parts[..|parts| - 1], sep) + [sep] + parts[|parts| - 1]
  }

  /** Number of occurrences of `c` in `s`. */
  function CountChar(s: string, c: char): nat
  {
    if |s| == 0 then 0
    else CountChar(s[..|s| - 1], c) + (if s[|s| - 1] == c then 1 else 0)
  }

  /** `s.split(sep)` for a one-character separator, as Python and JavaScript do it:
      scanning from the end, a separator starts a new (possibly empty) part and any
      other character extends the last part. */
  function Split(s: string, sep: char): (parts: seq<string>)
    ensures |parts| >= 1
    decreases |s|
  {
    if |s| == 0 then [""]
    else
      var init := Split(s[..|s| - 1], sep);
      var c := s[|s| - 1];
      if c == sep then init + [""]
      else init[..|init| - 1] + [init[|init| - 1] + [c]]
  }

  /** Split and Join are inverse: there is one part more than there are separators,
      no part contains the separator, and joining the parts gives `s` back. */
  lemma SplitJoin(s: string, sep: char)
    ensures |Split(s, sep)| == CountChar(s, sep) + 1
    ensures forall i :: 0 <= i < |Split(s, sep)| ==> sep !in Split(s, sep)[i]
    ensures Join(Split(s, sep), sep) == s
  {
    SplitCount(s, sep);
    SplitPartsFree(s, sep);
    SplitJoinBack(s, sep);
  }

  lemma {:induction false} SplitCount(s: string, sep: char)
    ensures |Split(s, sep)| == CountChar(s, sep) + 1
    decreases |s|
  {
    if |s| > 0 {
      SplitCount(s[..|s| - 1], sep);
    }
  }

  lemma {:induction false} SplitPartsFree(s: string, sep: char)
    ensures forall i :: 0 <= i < |Split(s, sep)| ==> sep !in Split(s, sep)[i]
    decreases |s|
  {
    if |s| > 0 {
      var s', c := s[..|s| - 1], s[|s| - 1];
      SplitPartsFree(s', sep);
      var init := Split(s', sep);
      if c != sep {
        var k := |init| - 1;
        var parts := init[..k] + [init[k] + [c]];
        assert parts == Split(s, sep);
        forall i | 0 <= i < |parts| ensures sep !in parts[i] {
          if i < k { assert parts[i] == init[i]; }
        }
      }
    }
  }

  lemma {:induction false} SplitJoinBack(s: string, sep: char)
    ensures Join(Split(s, sep), sep) == s
    decreases |s|
  {
    if |s| > 0 {
      var s', c := s[..|s| - 1], s[|s| - 1];
      SplitJoinBack(s', sep);
      var init := Split(s', sep);
      assert s == s' + [c];
      if c == sep {
        assert (init + [""])[..|init|] == init;
      } else {
        JoinExtendLast(init, c, sep);
      }
    }
  }

  /** Appending a character to the last part appends it to the joined string. */
  lemma JoinExtendLast(parts: seq<string>, c: char, sep: char)
    requires |parts| >= 1
    ensures var k := |parts| - 1;
      Join(parts[..k] + [parts[k] + [c]], sep) == Join(parts, sep) + [c]
  {
    var k := |parts| - 1;
    var ext := parts[..k] + [parts[k] + [c]];
    assert ext[..k] == parts[..k];
    assert ext[k] == parts[k] + [c];
    if k > 0 {
      assert Join(ext, sep) == Join(parts[..k], sep) + [sep] + (parts[k] + [c]);
      assert Join(parts, sep) == Join(parts[..k], sep) + [sep] + parts[k];
    }
  }

  /** Counting distributes over concatenation. */
  lemma {:induction false} CountCharAppend(a: string, b: string, c: char)
    ensures CountChar(a + b, c) == CountChar(a, c) + CountChar(b, c)
    decreases |b|
  {
    if |b| > 0 {
      assert (a + b)[..|a + b| - 1] == a + b[..|b| - 1];
      assert (a + b)[|a + b| - 1] == b[|b| - 1];
      CountCharAppend(a, b[..|b| - 1], c);
    } else {
      assert a + b == a;
    }
  }

  /** A string without the separator is one part. */
  lemma {:induction false} SplitNoSep(s: string, sep: char)
    requires sep !in s
    ensures Split(s, sep) == [s]
  {
    SplitJoin(s, sep);
    assert |Split(s, sep)| == 1 by { CountCharAbsent(s, sep); }
    assert Join(Split(s, sep), sep) == Split(s, sep)[0];
  }

  /** A separator and a part without it, appended to `p`, add that part after the
      parts of `p`. */
  lemma {:induction false} SplitAppendPart(p: string, x: string, sep: char)
    requires sep !in x
    ensures Split(p + [sep] + x, sep) == Split(p, sep) + [x]
    decreases |x|
  {
    var s := p + [sep] + x;
    if |x| == 0 {
      assert s == p + [sep];
      assert s[..|s| - 1] == p;
    } else {
      var x0 := x[..|x| - 1];
      assert s[..|s| - 1] == p + [sep] + x0;
      SplitAppendPart(p, x0, sep);
      assert x0 + [x[|x| - 1]] == x;
    }
  }

  lemma {:induction false} CountCharAbsent(s: string, c: char)
    requires c !in s
    ensures CountChar(s, c) == 0
    decreases |s|
  {
    if |s| > 0 {
      assert s[..|s| - 1] + [s[|s| - 1]] == s;
      CountCharAbsent(s[..|s| - 1], c);
    }
  }

  /** Number of dot-separated labels of a name (`len(name.split("."))`). */
  function LabelCount(name: string): nat
  {
    |Split(name, '.')|
  }

  /** The text after the last dot (`name.split(".").pop()`, `name.split(".")[-1]`). */
  function LastLabel(name: string): string
  {
    Split(name, '.')[|Split(name, '.')| - 1]
  }

  /** The last label contains no dot, is a suffix of `name`, and is either all of
      `name` or is preceded by a dot: it is the longest dot-free suffix. */
  lemma LastLabelFacts(name: string)
    ensures var last := LastLabel(name);
      && '.' !in last
      && |last| <= |name| && name[|name| - |last|..] == last
      && (|last| == |name| <==> '.' !in name)
      && (|last| < |name| ==> name[|name| - |last| - 1] == '.')
  {
    SplitJoin(name, '.');
    var parts := Split(name, '.');
    var n := |parts|;
    assert '.' !in parts[n - 1];
    if n == 1 {
      assert name == parts[0];
    } else {
      assert name == Join(parts[..n - 1], '.') + ['.'] + parts[n - 1];
    }
  }

  /** Whatever follows the last dot is the last label: the conditions stated by
      LastLabelFacts pin it down. */
  lemma LastLabelAfterDot(p: string, q: string)
    requires '.' !in q
    ensures LastLabel(p + "." + q) == q
  {
    var s := p + "." + q;
    var l := LastLabel(s);
    LastLabelFacts(s);
    assert s[|s| - |q|..] == q;
    assert s[|s| - |q| - 1] == '.';
    assert |l| == |q|;
  }

  /** A name with no dot is its own last label and has one label. */
  lemma LastLabelNoDot(s: string)
    requires '.' !in s
    ensures LastLabel(s) == s && LabelCount(s) == 1
  {
    LastLabelFacts(s);
    SplitJoin(s, '.');
    CountCharAbsent(s, '.');
  }

  predicate StartsWith(s: string, prefix: string)
  {
    |prefix| <= |s| && s[..|prefix|] == prefix
  }

  predicate EndsWith(s: string, suffix: string)
  {
    |suffix| <= |s| && s[|s| - |suffix|..] == suffix
  }

  /** A suffix of a suffix is a suffix. */
  lemma EndsWithTrans(s: string, a: string, b: string)
    requires EndsWith(s, a) && EndsWith(a, b)
    ensures EndsWith(s, b)
  {
    assert s[|s| - |b|..] == s[|s| - |a|..][|a| - |b|..];
  }

  /** Python's `needle in hay` on strings: `needle` occurs somewhere in `hay`. */
  predicate Contains(hay: string, needle: string)
    decreases |hay|
  {
    StartsWith(hay, needle) || (|hay| > 0 && Contains(hay[1..], needle))
  }

  /** An occurrence at a known position makes `Contains` true. */
  lemma {:induction false} ContainsAt(hay: string, needle: string, i: nat)
    requires i + |needle| <= |hay| && hay[i..i + |needle|] == needle
    ensures Contains(hay, needle)
    decreases i
  {
    if i > 0 {
      assert hay[1..][i - 1..i - 1 + |needle|] == hay[i..i + |needle|];
      ContainsAt(hay[1..], needle, i - 1);
    }
  }

  /** ASCII case mapping of `str.lower()` / `toLowerCase()`. */
  function LowerChar(c: char): char
  {
    if 'A' <= c <= 'Z' then (c as int + 32) as char else c
  }

  /** `s.lower()` on ASCII letters: the result has no upper-case ASCII letter, each
      'A'..'Z' is moved 32 code points up to its lower-case partner and every other
      character is kept. */
  function Lower(s: string): (r: string)
    ensures |r| == |s|
    ensures forall i :: 0 <= i < |r| ==> !('A' <= r[i] <= 'Z')
    ensures forall i :: 0 <= i < |s| && 'A' <= s[i] <= 'Z' ==> r[i] as int == s[i] as int + 32
    ensures forall i :: 0 <= i < |s| && !('A' <= s[i] <= 'Z') ==> r[i] == s[i]
  {
    seq(|s|, i requires 0 <= i < |s| => LowerChar(s[i]))
  }

  /** Lower-casing twice is lower-casing once. */
  lemma LowerIdempotent(s: string)
    ensures Lower(Lower(s)) == Lower(s)
  {
  }

  /** Characters that Python's `str.strip()` and `str.split()` treat as whitespace. */
  const PythonWhitespace: set<char> :=
    {' ', '\t', '\n', '\r', '\U{000B}', '\U{000C}', '\U{001C}', '\U{001D}',
     '\U{001E}', '\U{001F}', '\U{0085}', '\U{00A0}', '\U{1680}', '\U{2000}', '\U{2001}', '\U{2002}',
     '\U{2003}', '\U{2004}', '\U{2005}', '\U{2006}', '\U{2007}', '\U{2008}', '\U{2009}', '\U{200A}',
     '\U{2028}', '\U{2029}', '\U{202F}', '\U{205F}', '\U{3000}'}

  /** Characters that JavaScript's `String.prototype.trim()` removes. */
  const JsWhitespace: set<char> :=
    {' ', '\t', '\n', '\r', '\U{000B}', '\U{000C}', '\U{00A0}', '\U{1680}',
     '\U{2000}', '\U{2001}', '\U{2002}', '\U{2003}', '\U{2004}', '\U{2005}', '\U{2006}', '\U{2007}',
     '\U{2008}', '\U{2009}', '\U{200A}', '\U{2028}', '\U{2029}', '\U{202F}', '\U{205F}', '\U{3000}',
     '\U{FEFF}'}

  /** The first index from `i` on whose character is not in `ws` (or `|s|`). */
  function SkipFrom(s: string, ws: set<char>, i: nat): (j: nat)
    requires i <= |s|
    ensures i <= j <= |s|
    ensures forall k :: i <= k < j ==> s[k] in ws
    ensures j < |s| ==> s[j] !in ws
    decreases |s| - i
  {
    if i < |s| && s[i] in ws then SkipFrom(s, ws, i + 1) else i
  }

  /** Going down from `j`, the first end index above `lo` whose previous character is
      not in `ws` (or `lo`). */
  function BackFrom(s: string, ws: set<char>, lo: nat, j: nat): (i: nat)
    requires lo <= j <= |s|
    ensures lo <= i <= j
    ensures forall k :: i <= k < j ==> s[k] in ws
    ensures i > lo ==> s[i - 1] !in ws
    decreases j
  {
    if j > lo && s[j - 1] in ws then BackFrom(s, ws, lo, j - 1) else j
  }

  /** `s.strip()` / `s.trim()` for the whitespace set `ws`: the result is a piece of `s`
      that neither starts nor ends with whitespace, and it is empty exactly when every
      character of `s` is whitespace. */
  function Strip(s: string, ws: set<char>): (r: string)
    ensures |r| <= |s|
    ensures exists i, j ::
              && 0 <= i <= j <= |s| && r == s[i..j]
              && (forall k :: 0 <= k < i ==> s[k] in ws)
              && (forall k :: j <= k < |s| ==> s[k] in ws)
    ensures |r| > 0 ==> r[0] !in ws && r[|r| - 1] !in ws
    ensures |r| == 0 <==> forall k :: 0 <= k < |s| ==> s[k] in ws
  {
    var a := SkipFrom(s, ws, 0);
    var b := BackFrom(s, ws, a, |s|);
    assert a < |s| ==> b > a;
    assert (forall k :: 0 <= k < a ==> s[k] in ws) && (forall k :: b <= k < |s| ==> s[k] in ws);
    s[a..b]
  }

  /** Stripping twice strips no more than once. */
  lemma StripIdempotent(s: string, ws: set<char>)
    ensures Strip(Strip(s, ws), ws) == Strip(s, ws)
  {
    var r := Strip(s, ws);
    if |r| > 0 {
      assert SkipFrom(r, ws, 0) == 0;
      assert BackFrom(r, ws, 0, |r|) == |r|;
      assert r[0..|r|] == r;
    }
  }

  /** Python's `s.split()` without arguments: the maximal runs of non-whitespace
      characters, in order; no word is empty and none holds whitespace. The definition
      looks at the last character: whitespace adds nothing, a character after a word
      character extends the last word, any other starts a new word. */
  function Words(s: string, ws: set<char>): (words: seq<string>)
    ensures forall n :: 0 <= n < |words| ==> |words[n]| > 0 && forall c :: c in words[n] ==> c !in ws
    ensures |s| > 0 && s[|s| - 1] !in ws ==> |words| > 0
    decreases |s|
  {
    if |s| == 0 then []
    else
      var init := Words(s[..|s| - 1], ws);
      var c := s[|s| - 1];
      if c in ws then init
      else if |s| > 1 && s[|s| - 2] !in ws then init[..|init| - 1] + [init[|init| - 1] + [c]]
      else init + [[c]]
  }

  /** A string of whitespace only has no words. */
  lemma {:induction false} WordsAllWhitespace(s: string, ws: set<char>)
    requires forall k :: 0 <= k < |s| ==> s[k] in ws
    ensures Words(s, ws) == []
    decreases |s|
  {
    if |s| > 0 { WordsAllWhitespace(s[..|s| - 1], ws); }
  }

  /** A non-empty string without whitespace is one word. */
  lemma {:induction false} WordsOneWord(s: string, ws: set<char>)
    requires |s| > 0 && forall k :: 0 <= k < |s| ==> s[k] !in ws
    ensures Words(s, ws) == [s]
    decreases |s|
  {
    if |s| == 1 {
      WordsStart(s, ws, []);
      assert [s[0]] == s;
    } else {
      WordsOneWord(s[..|s| - 1], ws);
      WordsExtend(s, ws, [s[..|s| - 1]]);
      assert s[..|s| - 1] + [s[|s| - 1]] == s;
    }
  }

  /** `Words` on a string ending in whitespace: the words before it. */
  lemma WordsSkip(s: string, ws: set<char>, init: seq<string>)
    requires |s| > 0 && init == Words(s[..|s| - 1], ws) && s[|s| - 1] in ws
    ensures Words(s, ws) == init
  {
  }

  /** `Words` on a string whose last two characters are not whitespace: the last word grows. */
  lemma WordsExtend(s: string, ws: set<char>, init: seq<string>)
    requires |s| > 1 && init == Words(s[..|s| - 1], ws) && s[|s| - 1] !in ws && s[|s| - 2] !in ws
    ensures |init| > 0 && Words(s, ws) == init[..|init| - 1] + [init[|init| - 1] + [s[|s| - 1]]]
  {
  }

  /** `Words` on a string whose last character starts a word: a new one-character word. */
  lemma WordsStart(s: string, ws: set<char>, init: seq<string>)
    requires |s| > 0 && init == Words(s[..|s| - 1], ws) && s[|s| - 1] !in ws
    requires |s| == 1 || s[|s| - 2] in ws
    ensures Words(s, ws) == init + [[s[|s| - 1]]]
  {
  }

  /** The last element and the front of a concatenation with a non-empty right part. */
  lemma LastOfAppend(w: seq<string>, v: seq<string>)
    requires |v| > 0
    ensures (w + v)[|w + v| - 1] == v[|v| - 1]
    ensures (w + v)[..|w + v| - 1] == w + v[..|v| - 1]
  {
  }

  /** Concatenation of word lists is associative. */
  lemma AppendAssoc(x: seq<string>, y: seq<string>, z: seq<string>)
    ensures (x + y) + z == x + (y + z)
  {
  }

  /** A whitespace character separates the words before it from those after it: together
      with `WordsAllWhitespace` and `WordsOneWord` this determines `Words` on every string. */
  lemma WordsSplitAt(a: string, c: char, b: string, ws: set<char>)
    requires c in ws
    ensures Words(a + [c] + b, ws) == Words(a, ws) + Words(b, ws)
  {
    var s := a + [c] + b;
    assert s[..|a|] == a && s[|a| + 1..] == b;
    WordsSplitIndex(s, |a|, ws);
  }

  /** `WordsSplitAt` stated on positions of one string. */
  lemma {:induction false} WordsSplitIndex(s: string, i: nat, ws: set<char>)
    requires i < |s| && s[i] in ws
    ensures Words(s, ws) == Words(s[..i], ws) + Words(s[i + 1..], ws)
    decreases |s|
  {
    if i == |s| - 1 {
      WordsSplitLast(s, i, ws);
    } else {
      var t := s[..|s| - 1];
      WordsSplitIndex(t, i, ws);
      SliceParts(s, i);
      var b := s[i + 1..];
      if b[|b| - 1] in ws {
        WordsSplitSkip(s, b, ws, Words(s[..i], ws), Words(b[..|b| - 1], ws));
      } else if |b| > 1 && b[|b| - 2] !in ws {
        WordsSplitExtend(s, b, ws, Words(s[..i], ws), Words(b[..|b| - 1], ws));
      } else {
        WordsSplitStart(s, b, ws, Words(s[..i], ws), Words(b[..|b| - 1], ws));
      }
    }
  }

  /** `WordsSplitIndex` when the whitespace character is the last one. */
  lemma WordsSplitLast(s: string, i: nat, ws: set<char>)
    requires i == |s| - 1 && s[i] in ws
    ensures Words(s, ws) == Words(s[..i], ws) + Words(s[i + 1..], ws)
  {
    assert s[i + 1..] == [];
    WordsSkip(s, ws, Words(s[..i], ws));
  }

  /** How the pieces around position `i` look once the last character is dropped. */
  lemma SliceParts(s: string, i: nat)
    requires i < |s| - 1
    ensures var t, b := s[..|s| - 1], s[i + 1..];
      && t[..i] == s[..i] && t[i + 1..] == b[..|b| - 1]
      && s[|s| - 1] == b[|b| - 1] && s[|s| - 2] == if |b| > 1 then b[|b| - 2] else s[i]
  {
  }

  /** Inductive step of `WordsSplitIndex` when `s` ends in whitespace. */
  lemma WordsSplitSkip(s: string, b: string, ws: set<char>, w: seq<string>, v: seq<string>)
    requires |b| > 0 && |s| > 0 && s[|s| - 1] == b[|b| - 1] && b[|b| - 1] in ws
    requires w + v == Words(s[..|s| - 1], ws) && v == Words(b[..|b| - 1], ws)
    ensures Words(s, ws) == w + Words(b, ws)
  {
    WordsSkip(s, ws, w + v);
    WordsSkip(b, ws, v);
  }

  /** Inductive step of `WordsSplitIndex` when `s` ends in two word characters. */
  lemma WordsSplitExtend(s: string, b: string, ws: set<char>, w: seq<string>, v: seq<string>)
    requires |b| > 1 && |s| > 1 && s[|s| - 1] == b[|b| - 1] && s[|s| - 2] == b[|b| - 2]
    requires b[|b| - 1] !in ws && b[|b| - 2] !in ws
    requires w + v == Words(s[..|s| - 1], ws) && v == Words(b[..|b| - 1], ws)
    ensures Words(s, ws) == w + Words(b, ws)
  {
    WordsExtend(s, ws, w + v);
    WordsExtend(b, ws, v);
    LastOfAppend(w, v);
    AppendAssoc(w, v[..|v| - 1], [v[|v| - 1] + [b[|b| - 1]]]);
  }

  /** Inductive step of `WordsSplitIndex` when the last character of `s` starts a word. */
  lemma WordsSplitStart(s: string, b: string, ws: set<char>, w: seq<string>, v: seq<string>)
    requires |b| > 0 && |s| > 1 && s[|s| - 1] == b[|b| - 1] && b[|b| - 1] !in ws && s[|s| - 2] in ws
    requires |b| == 1 || b[|b| - 2] in ws
    requires w + v == Words(s[..|s| - 1], ws) && v == Words(b[..|b| - 1], ws)
    ensures Words(s, ws) == w + Words(b, ws)
  {
    WordsStart(s, ws, w + v);
    WordsStart(b, ws, v);
    AppendAssoc(w, v, [[b[|b| - 1]]]);
  }

  /** Python's `s[:k]` for `k >= 0`. */
  function Prefix(s: string, k: nat): (r: string)
    ensures |r| == if k < |s| then k else |s|
    ensures r == s[..|r|]
  {
    if k < |s| then s[..k] else s
  }

  /** Python's and JavaScript's string order: compare code points from the left; a
      proper prefix comes first. */
  predicate LexLe(a: string, b: string)
    decreases |a|
  {
    |a| == 0 || (|b| > 0 && (a[0] < b[0] || (a[0] == b[0] && LexLe(a[1..], b[1..]))))
  }

  lemma {:induction false} LexLeTotal(a: string, b: string)
    ensures LexLe(a, b) || LexLe(b, a)
    decreases |a|
  {
    if |a| > 0 && |b| > 0 && a[0] == b[0] { LexLeTotal(a[1..], b[1..]); }
  }

  lemma {:induction false} LexLeAntisymmetric(a: string, b: string)
    requires LexLe(a, b) && LexLe(b, a)
    ensures a == b
    decreases |a|
  {
    if |a| > 0 {
      LexLeAntisymmetric(a[1..], b[1..]);
      assert a == [a[0]] + a[1..] && b == [b[0]] + b[1..];
    }
  }

  lemma {:induction false} LexLeTransitive(a: string, b: string, c: string)
    requires LexLe(a, b) && LexLe(b, c)
    ensures LexLe(a, c)
    decreases |a|
  {
    if |a| > 0 && a[0] == b[0] && b[0] == c[0] {
      LexLeTransitive(a[1..], b[1..], c[1..]);
    }
  }

  function DigitChar(d: nat): char
    requires d < 10
  {
    ('0' as int + d) as char
  }

  /** The number a string of decimal digits denotes, most significant digit first. */
  function DecimalValue(r: string): nat
    requires forall i :: 0 <= i < |r| ==> '0' <= r[i] <= '9'
  {
    if |r| == 0 then 0
    else 10 * DecimalValue(r[..|r| - 1]) + (r[|r| - 1] as int - '0' as int)
  }

  /** `str(n)` for a natural number: decimal digits, without leading zeros, that
      denote `n`. */
  function NatToString(n: nat): (r: string)
    ensures |r| >= 1
    ensures forall i :: 0 <= i < |r| ==> '0' <= r[i] <= '9'
    ensures |r| > 1 ==> r[0] != '0'
    ensures DecimalValue(r) == n
  {
    if n < 10 then [DigitChar(n)]
    else
      var r := NatToString(n / 10) + [DigitChar(n % 10)];
      assert r[..|r| - 1] == NatToString(n / 10);
      r
  }
}
