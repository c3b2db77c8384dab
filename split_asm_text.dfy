// The string primitives and line recognisers of tools/split_asm.py:
// Python's character classes, str.strip/lstrip/find, os.path.basename,
// normalize_path, get_display_name and the regular expressions that
// classify the lines of an `objdump -d -S` listing.
module AsmText {
  import opened Wrappers

  type String = seq<char>

  // ----------------------------------------------------------------
  // Character classes

  /** The characters Python's str.isspace accepts; `\s` in a str pattern matches the same set. */
  predicate IsSpace(c: char) {
    c == ' ' || '\t' <= c <= '\r' || '\U{1C}' <= c <= '\U{1F}' || c == '\U{85}' || c == '\U{A0}'
    || c == '\U{1680}' || '\U{2000}' <= c <= '\U{200A}' || c == '\U{2028}' || c == '\U{2029}'
    || c == '\U{202F}' || c == '\U{205F}' || c == '\U{3000}'
  }

  predicate IsDigit(c: char) { '0' <= c <= '9' }

  predicate IsHexDigit(c: char) { IsDigit(c) || 'a' <= c <= 'f' || 'A' <= c <= 'F' }

  /** The character classes the recognisers scan with. */
  datatype Class =
    | Space       // \s
    | Digit       // \d, ASCII digits only
    | Hex         // [0-9a-fA-F]
    | HexOrBlank  // [0-9a-fA-F ]
    | NotGt       // [^>]
    | PathChar    // [^\s:]
    | NameChar    // [a-zA-Z0-9_./-]
    | DotOrSlash  // the characters of lstrip('./')
    | NotNewline  // the '\n' that rstrip('\n') removes

  predicate In(k: Class, c: char) {
    match k
    case Space => IsSpace(c)
    case Digit => IsDigit(c)
    case Hex => IsHexDigit(c)
    case HexOrBlank => IsHexDigit(c) || c == ' '
    case NotGt => c != '>'
    case PathChar => !IsSpace(c) && c != ':'
    case NameChar => 'a' <= c <= 'z' || 'A' <= c <= 'Z' || IsDigit(c) || c == '_' || c == '.' || c == '/' || c == '-'
    case DotOrSlash => c == '.' || c == '/'
    case NotNewline => c != '\n'
  }

  predicate All(k: Class, s: String) { forall i :: 0 <= i < |s| ==> In(k, s[i]) }

  /** Length of the longest prefix of s made of characters of class k (a greedy `k*`). */
  function Span(k: Class, s: String): (n: nat)
    ensures n <= |s| && All(k, s[..n])
    ensures n == |s| || !In(k, s[n])
  {
    if s == [] || !In(k, s[0]) then 0
    else
      var n := 1 + Span(k, s[1..]);
      assert s[..n] == [s[0]] + s[1..][..n - 1];
      n
  }

  /** Span stops exactly where a run of class k does. */
  lemma {:induction false} SpanOfRun(k: Class, a: String, b: String)
    requires All(k, a)
    requires b == [] || !In(k, b[0])
    ensures Span(k, a + b) == |a|
    decreases |a|
  {
    if a == [] {
      assert a + b == b;
    } else {
      var rest := a[1..];
      assert In(k, a[0]) && All(k, rest) by {
        assert a[0] == a[..1][0];
        assert forall i :: 0 <= i < |rest| ==> rest[i] == a[i + 1];
      }
      assert (a + b)[0] == a[0];
      assert (a + b)[1..] == rest + b;
      SpanOfRun(k, rest, b);
    }
  }

  /** Span is the length of the run of class k that ends at a character outside k. */
  lemma SpanIs(k: Class, s: String, n: nat)
    requires n <= |s| && All(k, s[..n])
    requires n == |s| || !In(k, s[n])
    ensures Span(k, s) == n
  {
    var m := Span(k, s);
    assert forall i :: 0 <= i < n ==> s[..n][i] == s[i];
    assert forall i :: 0 <= i < m ==> s[..m][i] == s[i];
  }

  /** Length of the longest suffix of s made of whitespace. */
  function TrailingSpace(s: String): (n: nat)
    ensures n <= |s|
  {
    if s == [] || !IsSpace(s[|s| - 1]) then 0 else 1 + TrailingSpace(s[..|s| - 1])
  }

  /** TrailingSpace stops exactly where the trailing run of whitespace does. */
  lemma {:induction false} TrailingSpaceRun(s: String)
    ensures var n := TrailingSpace(s);
      && (forall i :: |s| - n <= i < |s| ==> IsSpace(s[i]))
      && (n == |s| || !IsSpace(s[|s| - n - 1]))
  {
    if s != [] && IsSpace(s[|s| - 1]) {
      var p := s[..|s| - 1];
      TrailingSpaceRun(p);
      assert forall i :: 0 <= i < |p| ==> p[i] == s[i];
    }
  }

  // ----------------------------------------------------------------
  // str methods

  /** str.strip(): s without its leading and trailing whitespace. */
  function Strip(s: String): String
  {
    var a := Span(Space, s);
    s[a..|s| - TrailingSpace(s[a..])]
  }

  /** r is the slice of s at a with only whitespace around it and a
    * non-space at each of its ends. */
  predicate TrimmedAt(s: String, a: nat, r: String) {
    && a + |r| <= |s| && s[a..a + |r|] == r
    && (forall i :: 0 <= i < a ==> IsSpace(s[i]))
    && (forall i :: a + |r| <= i < |s| ==> IsSpace(s[i]))
    && (r != [] ==> !IsSpace(r[0]) && !IsSpace(r[|r| - 1]))
  }

  /** Strip takes off exactly the leading and the trailing whitespace: what
    * remains is the slice of s after its leading whitespace, with only
    * whitespace after it, and it is empty only for an all-whitespace string. */
  lemma StripMeaning(s: String)
    ensures TrimmedAt(s, Span(Space, s), Strip(s))
    ensures Strip(s) == [] <==> All(Space, s)
  {
    var a := Span(Space, s);
    var n := TrailingSpace(s[a..]);
    assert Strip(s) == s[a..|s| - n];
    TrailingSpaceRun(s[a..]);
    LeadingRun(s);
    TrailingOfSuffix(s, a, n);
    StripFacts(s, a, n);
  }

  /** The leading whitespace run of s, as Span measures it. */
  lemma LeadingRun(s: String)
    ensures var a := Span(Space, s);
      (forall i :: 0 <= i < a ==> IsSpace(s[i])) && (a == |s| || !IsSpace(s[a]))
  {
    var a := Span(Space, s);
    assert forall i :: 0 <= i < a ==> s[..a][i] == s[i];
  }

  /** A trailing whitespace run of s[a..] is one of s. */
  lemma TrailingOfSuffix(s: String, a: nat, n: nat)
    requires a <= |s| && n <= |s| - a
    requires forall i :: |s| - a - n <= i < |s| - a ==> IsSpace(s[a..][i])
    requires n == |s| - a || !IsSpace(s[a..][|s| - a - n - 1])
    ensures forall i :: |s| - n <= i < |s| ==> IsSpace(s[i])
    ensures n == |s| - a || !IsSpace(s[|s| - n - 1])
  {
    assert forall i :: a <= i < |s| ==> s[a..][i - a] == s[i];
  }

  /** The slice s[a..|s| - n] between a run of leading and a run of trailing whitespace. */
  lemma StripFacts(s: String, a: nat, n: nat)
    requires a <= |s| && (forall i :: 0 <= i < a ==> IsSpace(s[i])) && (a == |s| || !IsSpace(s[a]))
    requires n <= |s| - a && (forall i :: |s| - n <= i < |s| ==> IsSpace(s[i]))
    requires n == |s| - a || !IsSpace(s[|s| - n - 1])
    ensures TrimmedAt(s, a, s[a..|s| - n])
    ensures s[a..|s| - n] == [] <==> All(Space, s)
  {
    var r := s[a..|s| - n];
    if a < |s| {
      assert r[0] == s[a];
      assert r[|r| - 1] == s[|s| - n - 1];
    }
  }

  /** line.rstrip('\n'): drops every trailing newline. */
  function RStripNewlines(s: String): (r: String)
    ensures |r| <= |s| && r == s[..|r|] && (r == [] || r[|r| - 1] != '\n')
    ensures forall i :: |r| <= i < |s| ==> s[i] == '\n'
  {
    if s == [] || s[|s| - 1] != '\n' then s else RStripNewlines(s[..|s| - 1])
  }

  /** path.lstrip('./'): drops every leading '.' and '/' character, not only a "./" prefix. */
  function LStripDotSlash(s: String): (r: String)
    ensures |r| <= |s| && r == s[|s| - |r|..]
    ensures All(DotOrSlash, s[..|s| - |r|])
    ensures r == [] || (r[0] != '.' && r[0] != '/')
  {
    s[Span(DotOrSlash, s)..]
  }

  predicate OccursAt(s: String, p: String, i: int) {
    0 <= i && i + |p| <= |s| && s[i..i + |p|] == p
  }

  predicate Occurs(s: String, p: String) { exists i :: 0 <= i <= |s| && OccursAt(s, p, i) }

  function FindFrom(s: String, p: String, i: nat): (r: int)
    ensures r == -1 || (i <= r && OccursAt(s, p, r))
    ensures forall j :: i <= j && (r == -1 || j < r) ==> !OccursAt(s, p, j)
    decreases |s| - i
  {
    if i + |p| > |s| then -1
    else if s[i..i + |p|] == p then i
    else FindFrom(s, p, i + 1)
  }

  /** str.find: the first index at which p occurs in s, or -1 when it occurs nowhere. */
  function Find(s: String, p: String): (r: int)
    ensures r == -1 <==> !Occurs(s, p)
    ensures r != -1 ==> OccursAt(s, p, r) && forall j :: 0 <= j < r ==> !OccursAt(s, p, j)
  {
    FindFrom(s, p, 0)
  }

  /** A pattern whose first character is absent from s occurs nowhere in s. */
  lemma NotFoundWithoutFirstChar(s: String, p: String)
    requires p != [] && p[0] !in s
    ensures !Occurs(s, p)
  {
    forall i | 0 <= i <= |s| ensures !OccursAt(s, p, i) {
      if i + |p| <= |s| {
        assert s[i..i + |p|][0] == s[i];
      }
    }
  }

  /** os.path.basename: the part of p after its last '/'. */
  function Basename(p: String): (r: String)
    ensures '/' !in r
    ensures |r| <= |p| && r == p[|p| - |r|..]
    ensures |r| == |p| || p[|p| - |r| - 1] == '/'
  {
    if p == [] || p[|p| - 1] == '/' then []
    else
      var r := Basename(p[..|p| - 1]) + [p[|p| - 1]];
      assert p[|p| - |r|..] == p[..|p| - 1][|p| - |r|..] + [p[|p| - 1]];
      r
  }

  // ----------------------------------------------------------------
  // normalize_path and get_display_name (tools/split_asm.py:62-87)

  const PREFIXES: seq<String> := ["/proc/self/cwd/", "/private/var/tmp/_bazel", "bazel-out/", "external/"]
  const MARKERS: seq<String> := ["/src/", "/inc/", "/build/"]

  /** The prefix loop: the first prefix, from index k on, that occurs cuts the path after it. */
  function DropThroughPrefix(path: String, k: nat): String
    decreases |PREFIXES| - k
  {
    if k >= |PREFIXES| then path
    else
      var idx := Find(path, PREFIXES[k]);
      if idx >= 0 then path[idx + |PREFIXES[k]|..] else DropThroughPrefix(path, k + 1)
  }

  /** The marker loop: the first marker, from index k on, that occurs cuts the path after its '/'. */
  function CutAtMarker(path: String, k: nat): String
    decreases |MARKERS| - k
  {
    if k >= |MARKERS| then path
    else
      var idx := Find(path, MARKERS[k]);
      if idx >= 0 then path[idx + 1..] else CutAtMarker(path, k + 1)
  }

  function NormalizePath(path: String): (r: String)
    ensures |r| <= |path| && r == path[|path| - |r|..]
  {
    CutSuffix(path, 0);
    var dropped := DropThroughPrefix(path, 0);
    var stripped := LStripDotSlash(dropped);
    CutSuffixMarker(stripped, 0);
    CutAtMarker(stripped, 0)
  }

  function DisplayName(path: String): (r: String)
    ensures '/' !in r
  {
    Basename(NormalizePath(path))
  }

  /** get_display_name keeps a suffix of the path. */
  lemma DisplayNameSuffix(path: String)
    ensures var r := DisplayName(path); |r| <= |path| && r == path[|path| - |r|..]
  {
    var n := NormalizePath(path);
    SuffixOfSuffix(path, n, Basename(n));
  }

  /** A suffix of a suffix of s is a suffix of s. */
  lemma SuffixOfSuffix(s: String, t: String, u: String)
    requires |t| <= |s| && t == s[|s| - |t|..]
    requires |u| <= |t| && u == t[|t| - |u|..]
    ensures u == s[|s| - |u|..]
  {
    assert forall i :: 0 <= i < |u| ==> u[i] == t[|t| - |u| + i] == s[|s| - |u| + i];
  }

  lemma {:induction false} CutSuffix(path: String, k: nat)
    ensures var r := DropThroughPrefix(path, k); |r| <= |path| && r == path[|path| - |r|..]
    decreases |PREFIXES| - k
  {
    if k < |PREFIXES| && Find(path, PREFIXES[k]) < 0 {
      CutSuffix(path, k + 1);
    }
  }

  lemma {:induction false} CutSuffixMarker(path: String, k: nat)
    ensures var r := CutAtMarker(path, k); |r| <= |path| && r == path[|path| - |r|..]
    decreases |MARKERS| - k
  {
    if k < |MARKERS| && Find(path, MARKERS[k]) < 0 {
      CutSuffixMarker(path, k + 1);
    }
  }

  /**
   * The first prefix of the list that occurs anywhere in the path wins:
   * everything up to and including its first occurrence is dropped, and
   * the later prefixes are not tried.
   */
  lemma {:induction false} FirstPrefixWins(path: String, k: nat, from: nat)
    requires from <= k < |PREFIXES|
    requires Occurs(path, PREFIXES[k])
    requires forall j :: from <= j < k ==> !Occurs(path, PREFIXES[j])
    ensures DropThroughPrefix(path, from) == path[Find(path, PREFIXES[k]) + |PREFIXES[k]|..]
    decreases k - from
  {
    if from < k {
      FirstPrefixWins(path, k, from + 1);
    }
  }

  /** When no prefix occurs the prefix loop leaves the path alone. */
  lemma {:induction false} NoPrefixKeepsPath(path: String, from: nat)
    requires forall j :: from <= j < |PREFIXES| ==> !Occurs(path, PREFIXES[j])
    ensures DropThroughPrefix(path, from) == path
    decreases |PREFIXES| - from
  {
    if from < |PREFIXES| {
      NoPrefixKeepsPath(path, from + 1);
    }
  }

  /**
   * After the strip, the first marker that occurs cuts the path just after
   * the marker's leading '/', so the result starts with the marker's
   * directory name ("src/", "inc/" or "build/").
   */
  lemma {:induction false} FirstMarkerWins(path: String, k: nat, from: nat)
    requires from <= k < |MARKERS|
    requires Occurs(path, MARKERS[k])
    requires forall j :: from <= j < k ==> !Occurs(path, MARKERS[j])
    ensures CutAtMarker(path, from) == path[Find(path, MARKERS[k]) + 1..]
    ensures CutAtMarker(path, from)[..|MARKERS[k]| - 1] == MARKERS[k][1..]
    decreases k - from
  {
    if from < k {
      FirstMarkerWins(path, k, from + 1);
    } else {
      var idx := Find(path, MARKERS[k]);
      assert path[idx..idx + |MARKERS[k]|] == MARKERS[k];
      assert path[idx + 1..][..|MARKERS[k]| - 1] == MARKERS[k][1..];
    }
  }

  lemma {:induction false} NoMarkerKeepsPath(path: String, from: nat)
    requires forall j :: from <= j < |MARKERS| ==> !Occurs(path, MARKERS[j])
    ensures CutAtMarker(path, from) == path
    decreases |MARKERS| - from
  {
    if from < |MARKERS| {
      NoMarkerKeepsPath(path, from + 1);
    }
  }

  /** A path that mentions none of the prefixes or markers only loses its leading '.' and '/'. */
  lemma NormalizePlainPath(path: String)
    requires forall j :: 0 <= j < |PREFIXES| ==> !Occurs(path, PREFIXES[j])
    requires forall j :: 0 <= j < |MARKERS| ==> !Occurs(LStripDotSlash(path), MARKERS[j])
    ensures NormalizePath(path) == LStripDotSlash(path)
  {
    NoPrefixKeepsPath(path, 0);
    NoMarkerKeepsPath(LStripDotSlash(path), 0);
  }

  // ----------------------------------------------------------------
  // Numbers: int(s, 16), int(s) and the '%08x' format

  function HexDigitValue(c: char): (v: nat)
    requires IsHexDigit(c)
    ensures v < 16
  {
    if IsDigit(c) then c as nat - '0' as nat
    else if 'a' <= c <= 'f' then c as nat - 'a' as nat + 10
    else c as nat - 'A' as nat + 10
  }

  /** int(s, 16) for a string of hex digits. */
  function HexValue(s: String): nat
    requires All(Hex, s)
  {
    if s == [] then 0 else HexValue(s[..|s| - 1]) * 16 + HexDigitValue(s[|s| - 1])
  }

  /** int(s) for a string of ASCII decimal digits. */
  function DecValue(s: String): nat
    requires All(Digit, s)
  {
    if s == [] then 0 else DecValue(s[..|s| - 1]) * 10 + (s[|s| - 1] as nat - '0' as nat)
  }

  function LowerHexChar(d: nat): (c: char)
    requires d < 16
    ensures IsHexDigit(c) && HexDigitValue(c) == d
  {
    "0123456789abcdef"[d]
  }

  /** The lower-case hexadecimal digits of n, without leading zeros. */
  function HexDigits(n: nat): (s: String)
    ensures s != [] && All(Hex, s)
    ensures HexValue(s) == n
  {
    if n < 16 then [LowerHexChar(n)]
    else
      var s := HexDigits(n / 16) + [LowerHexChar(n % 16)];
      assert s[..|s| - 1] == HexDigits(n / 16);
      s
  }

  function Zeros(n: nat): (s: String)
    ensures |s| == n && All(Hex, s)
  {
    if n == 0 then [] else Zeros(n - 1) + ['0']
  }

  lemma {:induction false} LeadingZeros(z: nat, s: String)
    requires All(Hex, s)
    ensures All(Hex, Zeros(z) + s) && HexValue(Zeros(z) + s) == HexValue(s)
    decreases |s|
  {
    if s == [] {
      assert Zeros(z) + s == Zeros(z);
      ZerosValue(z);
    } else {
      var t := Zeros(z) + s;
      assert t[..|t| - 1] == Zeros(z) + s[..|s| - 1];
      LeadingZeros(z, s[..|s| - 1]);
    }
  }

  lemma {:induction false} ZerosValue(z: nat)
    ensures HexValue(Zeros(z)) == 0
  {
    if z > 0 {
      ZerosValue(z - 1);
    }
  }

  /** f'{n:08x}': lower-case hexadecimal, zero-padded to at least eight digits. */
  function Hex08(n: nat): (s: String)
    ensures |s| >= 8 && All(Hex, s)
  {
    var d := HexDigits(n);
    if |d| >= 8 then d else Zeros(8 - |d|) + d
  }

  /** int(f'{n:08x}', 16) == n: the address format round-trips. */
  lemma Hex08RoundTrip(n: nat)
    ensures HexValue(Hex08(n)) == n
  {
    var d := HexDigits(n);
    if |d| < 8 {
      LeadingZeros(8 - |d|, d);
    }
  }

  // ----------------------------------------------------------------
  // The regular expressions of tools/split_asm.py:103-108 and the
  // discriminator substitution at line 159. Lines reach them with their
  // trailing newlines stripped, so `$` is the end of the string.

  const DISCRIMINATOR: String := "(discriminator"

  /** Length of a match of `\(discriminator\s+\d+\)` at the start of s. */
  function DiscriminatorAt(s: String): (m: Option<nat>)
    ensures m.Some? ==> 0 < m.value <= |s|
  {
    if |s| < |DISCRIMINATOR| || s[..|DISCRIMINATOR|] != DISCRIMINATOR then None
    else
      var a := |DISCRIMINATOR|;
      var w := Span(Space, s[a..]);
      var d := Span(Digit, s[a + w..]);
      if w == 0 || d == 0 || a + w + d >= |s| || s[a + w + d] != ')' then None
      else Some(a + w + d + 1)
  }

  /** `^\s*\(discriminator\s+\d+\)\s*$` */
  predicate IsDiscriminatorLine(line: String)
    ensures IsDiscriminatorLine(line) ==> MatchFuncHeader(line).None? && MatchFileRef(line).None?
  {
    var n := Span(Space, line);
    var m := DiscriminatorAt(line[n..]);
    var r := m.Some? && All(Space, line[n + m.value..]);
    if r then
      assert n == 0 ==> line[0] == line[n..][0] == '(';
      assert n > 0 ==> line[..n][0] == line[0];
      assert Span(Hex, line) == 0 && Span(NameChar, line) == 0;
      r
    else r
  }

  /**
   * re.sub(r'\s*\(discriminator\s+\d+\)', '', s): scanning left to right,
   * every match (with the whitespace before it) is removed and the scan
   * resumes after it.
   */
  function Scrub(s: String): (r: String)
    ensures |r| <= |s|
    decreases |s|
  {
    if s == [] then []
    else
      var n := Span(Space, s);
      var m := DiscriminatorAt(s[n..]);
      if m.Some? then Scrub(s[n + m.value..]) else [s[0]] + Scrub(s[1..])
  }

  /** Text without an opening parenthesis carries no annotation and is kept whole. */
  lemma {:induction false} ScrubKeepsPlainText(s: String)
    requires '(' !in s
    ensures Scrub(s) == s
    decreases |s|
  {
    if s != [] {
      var n := Span(Space, s);
      if n < |s| {
        assert s[n..][0] == s[n];
      }
      assert DiscriminatorAt(s[n..]).None?;
      assert forall c :: c in s[1..] ==> c in s;
      ScrubKeepsPlainText(s[1..]);
    }
  }

  const SECTION: String := "Disassembly of section "

  /** `^Disassembly of section ([^:]+):` */
  predicate IsSectionLine(line: String)
    ensures IsSectionLine(line) ==> MatchFuncHeader(line).None? && MatchFileRef(line).None?
  {
    var r := |line| >= |SECTION| && line[..|SECTION|] == SECTION && Find(line[|SECTION|..], ":") >= 1;
    if r then
      assert line[..11] == SECTION[..11] == "Disassembly" && line[11] == SECTION[11] == ' ';
      SectionWord(line);
      r
    else r
  }

  /** The word "Disassembly" that opens a section line is neither an address nor a path. */
  lemma SectionWord(line: String)
    requires |line| > 11 && line[..11] == "Disassembly" && line[11] == ' '
    ensures Span(Hex, line) == 1 && Span(NameChar, line) == 11
  {
    assert line[..1] == line[..11][..1] == "D";
    assert line[1] == line[..11][1] == 'i';
    WordClasses();
    SpanIs(Hex, line, 1);
    SpanIs(NameChar, line, 11);
  }

  lemma WordClasses()
    ensures All(NameChar, "Disassembly") && All(Hex, "D")
    ensures !In(Hex, 'i') && !In(NameChar, ' ')
  {
  }

  datatype FuncHeader = FuncHeader(address: nat, name: String)

  /** `^([0-9a-fA-F]+)\s+<([^>]+)>:` with the address read as hexadecimal. */
  function MatchFuncHeader(line: String): (r: Option<FuncHeader>)
    ensures r.Some? ==> line != [] && IsHexDigit(line[0])
    ensures r.Some? ==> r.value.name != [] && '>' !in r.value.name
  {
    var h := Span(Hex, line);
    var w := Span(Space, line[h..]);
    var i := h + w;
    if h == 0 || w == 0 || i >= |line| || line[i] != '<' then None
    else
      var n := Span(NotGt, line[i + 1..]);
      var j := i + 1 + n;
      if n == 0 || j + 1 >= |line| || line[j + 1] != ':' then None
      else Some(FuncHeader(HexValue(line[..h]), line[i + 1..j]))
  }

  /** objdump's "<address> <name>:" header is recognised with its address and name. */
  lemma HeaderLine(line: String, h: nat, n: nat)
    requires 0 < h && 0 < n && h + n + 4 <= |line|
    requires All(Hex, line[..h]) && line[h] == ' ' && line[h + 1] == '<'
    requires All(NotGt, line[h + 2..h + 2 + n]) && line[h + 2 + n] == '>' && line[h + 3 + n] == ':'
    ensures MatchFuncHeader(line) == Some(FuncHeader(HexValue(line[..h]), line[h + 2..h + 2 + n]))
  {
    SpanIs(Hex, line, h);
    SpanIs(Space, line[h..], 1);
    assert line[h + 2..][..n] == line[h + 2..h + 2 + n];
    SpanIs(NotGt, line[h + 2..], n);
  }

  datatype FileRef = FileRef(rawPath: String, lineNum: nat, rest: String)

  /** `:(\d+)(\s.*)?$` after a path that ends just before the ':' at index k. */
  function LineTail(line: String, k: nat): (r: Option<FileRef>)
    requires k < |line|
    ensures r.Some? ==> r.value.rawPath == line[..k] && k + 1 < |line| && IsDigit(line[k + 1])
    ensures r.Some? ==> r.value.rest == [] || IsSpace(r.value.rest[0])
  {
    var d := Span(Digit, line[k + 1..]);
    var j := k + 1 + d;
    assert line[k + 1..j] == line[k + 1..][..d];
    if d == 0 then None
    else if j == |line| then Some(FileRef(line[..k], DecValue(line[k + 1..j]), []))
    else if IsSpace(line[j]) && All(NotNewline, line[j + 1..]) then Some(FileRef(line[..k], DecValue(line[k + 1..j]), line[j..]))
    else None
  }

  /** The first alternative, `/[^\s:]+`, followed by the line number. */
  function AbsoluteRef(line: String): (r: Option<FileRef>)
    ensures r.Some? ==> |r.value.rawPath| >= 2 && r.value.rawPath[0] == '/' && ':' !in r.value.rawPath
  {
    if line == [] || line[0] != '/' then None
    else
      var k := 1 + Span(PathChar, line[1..]);
      if k < 2 || k >= |line| || line[k] != ':' then None else LineTail(line, k)
  }

  /** The second alternative, `[a-zA-Z0-9_./-]+\.[chsS]`, followed by the line number. */
  function SourceRef(line: String): (r: Option<FileRef>)
    ensures r.Some? ==> var p := r.value.rawPath;
      |p| >= 3 && p[|p| - 2] == '.' && p[|p| - 1] in "chsS" && ':' !in p
  {
    var k := Span(NameChar, line);
    if k < 3 || k >= |line| || line[k] != ':' || line[k - 2] != '.' || line[k - 1] !in "chsS" then None
    else LineTail(line, k)
  }

  /** `^(/[^\s:]+|[a-zA-Z0-9_./-]+\.[chsS]):(\d+)(\s.*)?$`: the alternatives in order. */
  function MatchFileRef(line: String): (r: Option<FileRef>)
    ensures AbsoluteRef(line).Some? ==> r == AbsoluteRef(line)
    ensures r.Some? ==> ':' !in r.value.rawPath && |r.value.rawPath| >= 2
    ensures r.Some? && r.value.rawPath[0] != '/' ==> r == SourceRef(line)
  {
    var first := AbsoluteRef(line);
    if first.Some? then first else SourceRef(line)
  }

  /** A relative "<name>.c:<n>" reference with nothing after it is recognised as such. */
  lemma SourceRefLine(line: String, k: nat)
    requires 3 <= k < |line| - 1 && line[0] != '/'
    requires All(NameChar, line[..k]) && line[k - 2] == '.' && line[k - 1] in "chsS"
    requires line[k] == ':' && All(Digit, line[k + 1..])
    ensures MatchFileRef(line) == Some(FileRef(line[..k], DecValue(line[k + 1..]), []))
  {
    SpanIs(NameChar, line, k);
    SpanIs(Digit, line[k + 1..], |line| - k - 1);
    assert line[k + 1..|line|] == line[k + 1..];
  }

  datatype Instr = Instr(address: nat, hexBytes: String, instruction: String)

  /**
   * `\s+(.+)$` at index e: whitespace, then at least one character up to the
   * end, none of them a newline. The greedy `\s+` takes the whole run, or
   * gives back its last character when the run reaches the end of the line.
   * The result is where the instruction text starts.
   */
  function Tail(line: String, e: nat): (q: Option<nat>)
    ensures q.Some? ==> e < q.value < |line|
  {
    if e >= |line| || !IsSpace(line[e]) then None
    else
      var q := e + Span(Space, line[e..]);
      if q < |line| then (if All(NotNewline, line[q..]) then Some(q) else None)
      else if q - e >= 2 && line[q - 1] != '\n' then Some(q - 1)
      else None
  }

  /**
   * The lazy group `([0-9a-fA-F ]+?)` that starts at g: the shortest group,
   * at least e - g long, after which Tail matches. Result: (group end, text start).
   */
  function LazyGroup(line: String, g: nat, e: nat): (r: Option<(nat, nat)>)
    requires g < e
    ensures r.Some? ==> g < r.value.0 < r.value.1 < |line|
    decreases |line| - e
  {
    if e > |line| || !In(HexOrBlank, line[e - 1]) then None
    else if Tail(line, e).Some? then Some((e, Tail(line, e).value))
    else LazyGroup(line, g, e + 1)
  }

  /**
   * A greedy group `([0-9a-fA-F ]+)` that starts at g: the longest group,
   * at most e - g long, after which Tail matches.
   */
  function GreedyGroup(line: String, g: nat, e: nat): (r: Option<(nat, nat)>)
    requires g <= e
    ensures r.Some? ==> g < r.value.0 < r.value.1 < |line|
    decreases e - g
  {
    if e == g then None
    else if Tail(line, e).Some? then Some((e, Tail(line, e).value))
    else GreedyGroup(line, g, e - 1)
  }

  /**
   * The `\s+` after the address colon at s0, taken k long (the engine
   * tries the whole run first and then shorter ones), followed by the
   * hex-bytes group, lazy as written or greedy. Result: (group start,
   * group end, text start).
   */
  function Operands(line: String, s0: nat, k: nat, lazy: bool): (r: Option<(nat, nat, nat)>)
    requires s0 + k <= |line|
    ensures r.Some? ==> s0 < r.value.0 < r.value.1 < r.value.2 < |line|
    decreases k
  {
    if k == 0 then None
    else
      var g := s0 + k;
      var found :=
        if lazy then (if g < |line| then LazyGroup(line, g, g + 1) else None)
        else GreedyGroup(line, g, g + Span(HexOrBlank, line[g..]));
      if found.Some? then Some((g, found.value.0, found.value.1))
      else Operands(line, s0, k - 1, lazy)
  }

  /**
   * `^\s*([0-9a-fA-F]+):\s+` followed by the operands: the address and the
   * start of what follows the colon's whitespace.
   */
  function AsmMatch(line: String, lazy: bool): (r: Option<Instr>)
    ensures r.Some? ==> r.value.instruction != []
  {
    AsmFrom(line, Span(Space, line), lazy)
  }

  /** The address `([0-9a-fA-F]+)` from index a, then the ':'. */
  function AsmFrom(line: String, a: nat, lazy: bool): (r: Option<Instr>)
    requires a <= |line|
    ensures r.Some? ==> r.value.instruction != []
  {
    var h := Span(Hex, line[a..]);
    if h == 0 || a + h >= |line| || line[a + h] != ':' then None
    else
      assert line[a..a + h] == line[a..][..h];
      AsmColon(line, a, a + h, lazy)
  }

  /** What follows the ':' at index c. */
  function AsmColon(line: String, a: nat, c: nat, lazy: bool): (r: Option<Instr>)
    requires a <= c < |line| && All(Hex, line[a..c])
    ensures r.Some? ==> r.value.instruction != []
  {
    InstrAt(line, a, c, Operands(line, c + 1, Span(Space, line[c + 1..]), lazy))
  }

  /** The groups of a match: the address between a and c, the hex bytes stripped, the text. */
  function InstrAt(line: String, a: nat, c: nat, ops: Option<(nat, nat, nat)>): (r: Option<Instr>)
    requires a <= c <= |line| && All(Hex, line[a..c])
    requires ops.Some? ==> ops.value.0 <= ops.value.1 <= ops.value.2 < |line|
    ensures r.Some? ==> r.value.instruction != []
  {
    if ops.None? then None
    else
      var (g, e, q) := ops.value;
      Some(Instr(HexValue(line[a..c]), Strip(line[g..e]), line[q..]))
  }

  /** `^\s*([0-9a-fA-F]+):\s+([0-9a-fA-F ]+?)\s+(.+)$` as written, with the lazy hex group. */
  function MatchAsmAsWritten(line: String): (r: Option<Instr>)
    ensures r.Some? ==> r.value.instruction != []
  {
    AsmMatch(line, true)
  }

  /** The same pattern with a greedy hex group, which keeps every word of the hex bytes. */
  function MatchAsm(line: String): (r: Option<Instr>)
    ensures r.Some? ==> r.value.instruction != []
  {
    AsmMatch(line, false)
  }

  /** A class holds over a slice exactly when it holds at each of its positions. */
  lemma AllSlice(k: Class, s: String, a: nat, b: nat)
    requires a <= b <= |s|
    ensures All(k, s[a..b]) <==> forall i :: a <= i < b ==> In(k, s[i])
  {
    assert forall i :: a <= i < b ==> s[a..b][i - a] == s[i];
  }

  /**
   * The shape objdump gives a two-word m68k instruction: "<addr>:\t<w1> <w2>\t<text>",
   * where h, p and q are the lengths of the address and of the two hex words.
   */
  predicate TwoWordLine(line: String, h: nat, p: nat, q: nat) {
    0 < h && 0 < p && 0 < q && h + p + q + 5 <= |line|
    && All(Hex, line[..h])
    && line[h] == ':' && line[h + 1] == '\t'
    && (forall i :: h + 2 <= i < h + 2 + p ==> IsHexDigit(line[i]))
    && line[h + 2 + p] == ' '
    && (forall i :: h + 3 + p <= i < h + 3 + p + q ==> IsHexDigit(line[i]))
    && line[h + 3 + p + q] == '\t'
    && !IsSpace(line[h + 4 + p + q])
    && (forall i :: h + 4 + p + q <= i < |line| ==> line[i] != '\n')
  }

  /** str.strip is idempotent: a stripped string is its own strip. */
  lemma StripIdempotent(s: String)
    ensures Strip(Strip(s)) == Strip(s)
  {
    StripMeaning(s);
    if Strip(s) != [] {
      StripTrimmed(Strip(s));
    }
  }

  /** A string that neither starts nor ends with whitespace is its own strip. */
  lemma StripTrimmed(s: String)
    requires s != [] && !IsSpace(s[0]) && !IsSpace(s[|s| - 1])
    ensures Strip(s) == s
  {
    SpanIs(Space, s, 0);
    assert s[0..] == s;
  }

  /** `\s+(.+)$` at e over a single whitespace character followed by the text. */
  lemma TailAfterOneSpace(line: String, e: nat)
    requires e + 1 < |line| && IsSpace(line[e]) && !IsSpace(line[e + 1])
    requires forall i :: e + 1 <= i < |line| ==> line[i] != '\n'
    ensures Tail(line, e) == Some(e + 1)
  {
    SpanIs(Space, line[e..], 1);
    AllSlice(NotNewline, line, e + 1, |line|);
    assert line[e + 1..|line|] == line[e + 1..];
  }

  /** The start of an instruction line: no indentation, the address, ':' and one whitespace character. */
  lemma AsmHead(line: String, h: nat, lazy: bool, g: nat, e: nat, q: nat)
    requires 0 < h && h + 2 < |line| && All(Hex, line[..h])
    requires line[h] == ':' && IsSpace(line[h + 1]) && !IsSpace(line[h + 2])
    requires Operands(line, h + 1, 1, lazy) == Some((g, e, q))
    requires g < e <= |line| && Strip(line[g..e]) == line[g..e]
    ensures AsmMatch(line, lazy) == Some(Instr(HexValue(line[..h]), line[g..e], line[q..]))
  {
    AsmSpans(line, h);
    assert line[0..h] == line[..h];
    assert AsmMatch(line, lazy) == AsmFrom(line, 0, lazy);
    assert AsmFrom(line, 0, lazy) == AsmColon(line, 0, h, lazy);
    assert AsmColon(line, 0, h, lazy) == InstrAt(line, 0, h, Some((g, e, q)));
  }

  /** The spans AsmMatch measures on an unindented line "<addr>:<one whitespace character>...". */
  lemma AsmSpans(line: String, h: nat)
    requires 0 < h && h + 2 < |line| && All(Hex, line[..h])
    requires line[h] == ':' && IsSpace(line[h + 1]) && !IsSpace(line[h + 2])
    ensures Span(Space, line) == 0 && Span(Hex, line[0..]) == h && Span(Space, line[h + 1..]) == 1
  {
    SpanIs(Space, line, 0);
    assert line[0..] == line;
    SpanIs(Hex, line, h);
    SpanIs(Space, line[h + 1..], 1);
  }

  /** The lazy group skips every position whose next character is not whitespace. */
  lemma {:induction false} LazyGroupSkips(line: String, g: nat, e: nat, stop: nat)
    requires g < e <= stop < |line|
    requires forall i :: e - 1 <= i < stop ==> IsHexDigit(line[i])
    ensures LazyGroup(line, g, e) == LazyGroup(line, g, stop)
    decreases stop - e
  {
    if e < stop {
      LazyGroupSkips(line, g, e + 1, stop);
    }
  }

  /** The lazy group over one hex word followed by one blank and the text. */
  lemma LazyGroupOneWord(line: String, g: nat, p: nat)
    requires 0 < p && g + p + 1 < |line|
    requires forall i :: g <= i < g + p ==> IsHexDigit(line[i])
    requires line[g + p] == ' ' && !IsSpace(line[g + p + 1])
    requires forall i :: g + p + 1 <= i < |line| ==> line[i] != '\n'
    ensures LazyGroup(line, g, g + 1) == Some((g + p, g + p + 1))
  {
    LazyGroupSkips(line, g, g + 1, g + p);
    TailAfterOneSpace(line, g + p);
    assert IsHexDigit(line[g + p - 1]);
  }

  /** The run of hex digits and blanks that starts at g is n long. */
  lemma HexOrBlankRun(line: String, g: nat, n: nat)
    requires g + n < |line|
    requires forall i :: g <= i < g + n ==> In(HexOrBlank, line[i])
    requires !In(HexOrBlank, line[g + n])
    ensures Span(HexOrBlank, line[g..]) == n
  {
    AllSlice(HexOrBlank, line, g, g + n);
    assert line[g..][..n] == line[g..g + n];
    SpanIs(HexOrBlank, line[g..], n);
  }

  /** Both hex words and the blank between them are one run of the hex group's class. */
  lemma TwoWordRun(line: String, h: nat, p: nat, q: nat)
    requires TwoWordLine(line, h, p, q)
    ensures forall i :: h + 2 <= i < h + 3 + p + q ==> In(HexOrBlank, line[i])
  {
  }

  /** The greedy group ends at the first place where the tail matches. */
  lemma GreedyGroupAt(line: String, g: nat, e: nat)
    requires g < e && Tail(line, e).Some?
    ensures GreedyGroup(line, g, e) == Some((e, Tail(line, e).value))
  {
  }

  /** The lazy operands when the whitespace after the colon is one character long. */
  lemma LazyOperandsOne(line: String, s0: nat, e: nat, q: nat)
    requires s0 + 1 < |line| && LazyGroup(line, s0 + 1, s0 + 2) == Some((e, q))
    ensures Operands(line, s0, 1, true) == Some((s0 + 1, e, q))
  {
  }

  /** The greedy operands when the whitespace after the colon is one character long. */
  lemma GreedyOperandsOne(line: String, s0: nat, e: nat, q: nat)
    requires s0 + 1 < |line|
    requires GreedyGroup(line, s0 + 1, s0 + 1 + Span(HexOrBlank, line[s0 + 1..])) == Some((e, q))
    ensures Operands(line, s0, 1, false) == Some((s0 + 1, e, q))
  {
  }

  /** The whole match when the lazy group after a one-character gap ends at e. */
  lemma LazyHead(line: String, h: nat, e: nat, q: nat)
    requires 0 < h && h + 3 < |line| && All(Hex, line[..h])
    requires line[h] == ':' && IsSpace(line[h + 1]) && !IsSpace(line[h + 2])
    requires LazyGroup(line, h + 2, h + 3) == Some((e, q))
    requires h + 2 < e <= |line| && !IsSpace(line[e - 1])
    ensures MatchAsmAsWritten(line) == Some(Instr(HexValue(line[..h]), line[h + 2..e], line[q..]))
  {
    var word := line[h + 2..e];
    assert word[0] == line[h + 2] && word[|word| - 1] == line[e - 1];
    StripTrimmed(word);
    LazyOperandsOne(line, h + 1, e, q);
    AsmHead(line, h, true, h + 2, e, q);
  }

  /**
   * As written, the lazy hex group stops at the first blank: the second hex
   * word of the instruction is read as the start of the instruction text.
   */
  lemma LazyGroupSplitsHexWords(line: String, h: nat, p: nat, q: nat)
    requires TwoWordLine(line, h, p, q)
    ensures MatchAsmAsWritten(line) == Some(Instr(HexValue(line[..h]), line[h + 2..h + 2 + p], line[h + 3 + p..]))
  {
    TwoWordFirst(line, h, p, q);
    LazyGroupOneWord(line, h + 2, p);
    LazyHead(line, h, h + 2 + p, h + 3 + p);
  }

  /** What a two-word line gives the lazy group: the first word, then a blank and the text. */
  lemma TwoWordFirst(line: String, h: nat, p: nat, q: nat)
    requires TwoWordLine(line, h, p, q)
    ensures 0 < h && h + 3 < |line| && All(Hex, line[..h])
    ensures line[h] == ':' && IsSpace(line[h + 1]) && !IsSpace(line[h + 2])
    ensures h + 2 + p + 1 < |line| && forall i :: h + 2 <= i < h + 2 + p ==> IsHexDigit(line[i])
    ensures line[h + 2 + p] == ' ' && !IsSpace(line[h + 2 + p + 1])
    ensures forall i :: h + 2 + p + 1 <= i < |line| ==> line[i] != '\n'
    ensures !IsSpace(line[h + 2 + p - 1])
  {
    assert IsHexDigit(line[h + 2]) && IsHexDigit(line[h + 2 + p - 1]);
  }

  /** With a greedy group both hex words stay in the hex bytes and the text is the instruction alone. */
  lemma GreedyGroupKeepsHexWords(line: String, h: nat, p: nat, q: nat)
    requires TwoWordLine(line, h, p, q)
    ensures MatchAsm(line) == Some(Instr(HexValue(line[..h]), line[h + 2..h + 3 + p + q], line[h + 4 + p + q..]))
  {
    var g := h + 2;
    var e := g + p + 1 + q;
    TwoWordRun(line, h, p, q);
    HexOrBlankRun(line, g, p + 1 + q);
    TailAfterOneSpace(line, e);
    GreedyGroupAt(line, g, e);
    GreedyOperandsOne(line, h + 1, e, e + 1);
    StripTrimmed(line[g..e]);
    AsmHead(line, h, false, g, e, e + 1);
  }
}
