// tests/gxtest/scrabble_timing_report.cpp: the integer core of the timing
// report. Each move's rack is classified by its vowels, consonants, blanks
// and whether it holds an S; per-bucket frame counts are collected, and
// their median, 90th percentile and maximum are read off the sorted values;
// rack-composition keys "v/c/b" are ordered by blanks, vowels, consonants.
module TimingReport {
  import opened AsmText
  import opened Numerals
  import opened Wrappers

  // ---------------------------------------------------------------------
  // Rack classification

  /** toupper in the C locale. */
  function ToUpper(c: char): (u: char)
    ensures 'a' <= c <= 'z' ==> u as int == c as int - 32
    ensures !('a' <= c <= 'z') ==> u == c
  {
    if 'a' <= c <= 'z' then (c as int - 32) as char else c
  }

  /** isalpha in the C locale. */
  predicate IsAlpha(c: char)
  {
    'A' <= c <= 'Z' || 'a' <= c <= 'z'
  }

  /** IsVowel: the upper-cased character is A, E, I, O or U. */
  predicate IsVowel(c: char)
  {
    var u := ToUpper(c);
    u == 'A' || u == 'E' || u == 'I' || u == 'O' || u == 'U'
  }

  /** The vowels are exactly the ten letters AEIOU and aeiou. */
  lemma VowelLetters(c: char)
    ensures IsVowel(c) <==> c in "AEIOUaeiou"
  {
    if 'a' <= c <= 'z' {
      assert IsVowel(c) <==> c in "aeiou";
    }
  }

  datatype RackAnalysis = RackAnalysis(vowels: nat, consonants: nat, hasS: bool, blanks: nat)

  /** One rack character: '?' a blank, S or s a consonant that sets has_s,
    * a vowel, another letter a consonant; anything else is ignored. */
  function Classify(r: RackAnalysis, c: char): RackAnalysis
  {
    if c == '?' then r.(blanks := r.blanks + 1)
    else if ToUpper(c) == 'S' then r.(hasS := true, consonants := r.consonants + 1)
    else if IsVowel(c) then r.(vowels := r.vowels + 1)
    else if IsAlpha(c) then r.(consonants := r.consonants + 1)
    else r
  }

  /** The analysis of the characters s, read in order. */
  function AnalysisOf(s: String): RackAnalysis
  {
    if s == [] then RackAnalysis(0, 0, false, 0) else Classify(AnalysisOf(s[..|s| - 1]), s[|s| - 1])
  }

  /** Where Analyze stops reading: rack_size, or the first NUL before it. */
  function ReadLength(rack: String, rackSize: nat, from: nat): (n: nat)
    requires from <= rackSize <= |rack|
    ensures from <= n <= rackSize
    ensures forall k :: from <= k < n ==> rack[k] != '\0'
    ensures n == rackSize || rack[n] == '\0'
    decreases rackSize - from
  {
    if from == rackSize || rack[from] == '\0' then from else ReadLength(rack, rackSize, from + 1)
  }

  /** RackAnalysis::Analyze over the move record's rack characters. */
  method Analyze(rack: String, rackSize: nat) returns (r: RackAnalysis)
    requires rackSize <= |rack|
    ensures r == AnalysisOf(rack[..ReadLength(rack, rackSize, 0)])
  {
    r := RackAnalysis(0, 0, false, 0);
    var i := 0;
    while i < rackSize && rack[i] != '\0'
      invariant 0 <= i <= ReadLength(rack, rackSize, 0)
      invariant ReadLength(rack, rackSize, i) == ReadLength(rack, rackSize, 0)
      invariant r == AnalysisOf(rack[..i])
    {
      var c := rack[i];
      assert rack[..i + 1][..i] == rack[..i];
      if c == '?' {
        r := r.(blanks := r.blanks + 1);
      } else if ToUpper(c) == 'S' {
        r := r.(hasS := true, consonants := r.consonants + 1);
      } else if IsVowel(c) {
        r := r.(vowels := r.vowels + 1);
      } else if IsAlpha(c) {
        r := r.(consonants := r.consonants + 1);
      }
      i := i + 1;
    }
  }

  /** How many characters of s satisfy the class test. */
  function CountOf(s: String, blank: bool, vowel: bool): nat
  {
    if s == [] then 0
    else
      var c := s[|s| - 1];
      CountOf(s[..|s| - 1], blank, vowel)
      + if (blank && c == '?') || (vowel && IsVowel(c)) || (!blank && !vowel && IsAlpha(c) && !IsVowel(c)) then 1 else 0
  }

  /** The analysis counts the blanks, the vowels and the other letters of
    * the characters read, and has_s says whether an S of either case is
    * among them; so the three counts never exceed the characters read. */
  lemma {:induction false} AnalysisCounts(s: String)
    ensures var r := AnalysisOf(s);
      && r.blanks == CountOf(s, true, false)
      && r.vowels == CountOf(s, false, true)
      && r.consonants == CountOf(s, false, false)
      && (r.hasS <==> 'S' in s || 's' in s)
      && r.vowels + r.consonants + r.blanks <= |s|
  {
    if s != [] {
      var init := s[..|s| - 1];
      AnalysisCounts(init);
      assert s == init + [s[|s| - 1]];
    }
  }

  // ---------------------------------------------------------------------
  // Order statistics

  /** x inserted before the first element not below it. */
  function Insert(x: nat, s: seq<nat>): (r: seq<nat>)
    ensures |r| == |s| + 1
  {
    if s == [] || x <= s[0] then [x] + s else [s[0]] + Insert(x, s[1..])
  }

  /** std::sort of a copy: ascending order, by insertion. */
  function Sort(s: seq<nat>): (r: seq<nat>)
    ensures |r| == |s|
  {
    if s == [] then [] else Insert(s[0], Sort(s[1..]))
  }

  predicate Ascending(s: seq<nat>)
  {
    forall i, j :: 0 <= i < j < |s| ==> s[i] <= s[j]
  }

  lemma {:induction false} InsertPerm(x: nat, s: seq<nat>)
    ensures multiset(Insert(x, s)) == multiset(s) + multiset{x}
  {
    if s != [] && x > s[0] {
      InsertPerm(x, s[1..]);
      assert s == [s[0]] + s[1..];
    }
  }

  /** Every value at least m. */
  predicate AllAtLeast(s: seq<nat>, m: nat)
  {
    forall i :: 0 <= i < |s| ==> m <= s[i]
  }

  lemma {:induction false} InsertAtLeast(x: nat, s: seq<nat>, m: nat)
    requires AllAtLeast(s, m) && m <= x
    ensures AllAtLeast(Insert(x, s), m)
  {
    if s != [] && x > s[0] {
      InsertAtLeast(x, s[1..], m);
    }
  }

  lemma {:induction false} InsertSorted(x: nat, s: seq<nat>)
    requires Ascending(s)
    ensures Ascending(Insert(x, s))
  {
    if s != [] && x > s[0] {
      var t := Insert(x, s[1..]);
      InsertSorted(x, s[1..]);
      InsertAtLeast(x, s[1..], s[0]);
      var r := [s[0]] + t;
      forall i, j | 0 <= i < j < |r|
        ensures r[i] <= r[j]
      {
        if i > 0 {
          assert r[i] == t[i - 1] && r[j] == t[j - 1];
        } else {
          assert r[j] == t[j - 1];
        }
      }
    }
  }

  /** Sorting gives the same values in ascending order. */
  lemma {:induction false} SortFacts(s: seq<nat>)
    ensures Ascending(Sort(s)) && multiset(Sort(s)) == multiset(s)
  {
    if s != [] {
      SortFacts(s[1..]);
      InsertSorted(s[0], Sort(s[1..]));
      InsertPerm(s[0], Sort(s[1..]));
      assert s == [s[0]] + s[1..];
    }
  }

  /** How many of the values lie below m, and how many at or below it. */
  function Below(s: seq<nat>, m: nat): nat
  {
    if s == [] then 0 else (if s[0] < m then 1 else 0) + Below(s[1..], m)
  }

  function AtMost(s: seq<nat>, m: nat): nat
  {
    if s == [] then 0 else (if s[0] <= m then 1 else 0) + AtMost(s[1..], m)
  }

  lemma {:induction false} InsertCounts(x: nat, s: seq<nat>, m: nat)
    ensures Below(Insert(x, s), m) == Below(s, m) + (if x < m then 1 else 0)
    ensures AtMost(Insert(x, s), m) == AtMost(s, m) + (if x <= m then 1 else 0)
  {
    if s != [] && x > s[0] {
      InsertCounts(x, s[1..], m);
      assert Insert(x, s)[1..] == Insert(x, s[1..]);
    } else {
      assert Insert(x, s)[1..] == s;
    }
  }

  /** Sorting keeps the counts. */
  lemma {:induction false} SortCounts(s: seq<nat>, m: nat)
    ensures Below(Sort(s), m) == Below(s, m) && AtMost(Sort(s), m) == AtMost(s, m)
  {
    if s != [] {
      SortCounts(s[1..], m);
      InsertCounts(s[0], Sort(s[1..]), m);
    }
  }

  lemma {:induction false} NoneBelow(s: seq<nat>, m: nat)
    requires forall i :: 0 <= i < |s| ==> m <= s[i]
    ensures Below(s, m) == 0
  {
    if s != [] {
      NoneBelow(s[1..], m);
    }
  }

  /** In ascending values, entry k has at most k values below it and at
    * least k + 1 at or below it: it is the (k + 1)-th smallest. */
  lemma {:induction false} SortedRank(t: seq<nat>, k: nat)
    requires Ascending(t) && k < |t|
    ensures Below(t, t[k]) <= k < AtMost(t, t[k])
  {
    if k == 0 {
      NoneBelow(t, t[0]);
    } else {
      assert t[1..][k - 1] == t[k];
      SortedRank(t[1..], k - 1);
    }
  }

  /** sorted[k] of the values: the (k + 1)-th smallest of them. */
  function Select(values: seq<nat>, k: nat): nat
    requires k < |values|
  {
    Sort(values)[k]
  }

  /** The selected value is one of the values, with at most k below it and
    * more than k at or below it. */
  lemma SelectRank(values: seq<nat>, k: nat)
    requires k < |values|
    ensures Select(values, k) in values
    ensures Below(values, Select(values, k)) <= k < AtMost(values, Select(values, k))
  {
    SortFacts(values);
    var t := Sort(values);
    assert t[k] in multiset(t);
    SortedRank(t, k);
    SortCounts(values, t[k]);
  }

  /** sorted.size() * 90 / 100 indexes a non-empty list. */
  lemma P90InRange(n: nat)
    requires n > 0
    ensures n * 90 / 100 < n
  {
  }

  /** std::max_element over a non-empty list. */
  function MaxOf(values: seq<nat>): (m: nat)
    requires values != []
    ensures m in values && forall x :: x in values ==> x <= m
  {
    if |values| == 1 then values[0]
    else
      var rest := MaxOf(values[1..]);
      assert forall x :: x in values ==> x == values[0] || x in values[1..];
      if values[0] >= rest then values[0] else rest
  }

  /** One bucket of frame counts. The double sums behind the mean and the
    * deviation are not modelled. */
  class BucketStats {
    var count: int
    var values: seq<nat>

    ghost predicate Valid()
      reads this
    {
      count == |values|
    }

    constructor ()
      ensures Valid() && values == []
    {
      count := 0;
      values := [];
    }

    /** Add: one more value, counted and appended. */
    method Add(v: nat)
      requires v < 0x1_0000_0000
      modifies this
      ensures values == old(values) + [v] && count == old(count) + 1
      ensures old(Valid()) ==> Valid()
    {
      count := count + 1;
      values := values + [v];
    }

    /** Median: sorted[n / 2], or 0 for an empty bucket. */
    function Median(): (m: nat)
      reads this
      ensures values == [] ==> m == 0
      ensures values != [] ==> m in values && Below(values, m) <= |values| / 2 < AtMost(values, m)
    {
      if values == [] then 0
      else
        SelectRank(values, |values| / 2);
        Select(values, |values| / 2)
    }

    /** P90: sorted[n * 90 / 100], or 0 for an empty bucket. */
    function P90(): (p: nat)
      reads this
      ensures values == [] ==> p == 0
      ensures values != [] ==> p in values && Below(values, p) <= |values| * 90 / 100 < AtMost(values, p)
    {
      if values == [] then 0
      else
        P90InRange(|values|);
        SelectRank(values, |values| * 90 / 100);
        Select(values, |values| * 90 / 100)
    }

    /** Max: the largest value, or 0 for an empty bucket. */
    function Max(): (m: nat)
      reads this
      ensures values == [] ==> m == 0
      ensures values != [] ==> m in values && forall x :: x in values ==> x <= m
    {
      if values == [] then 0 else MaxOf(values)
    }
  }

  // ---------------------------------------------------------------------
  // Rack-composition keys

  /** The "v/c/b" key of an analysis: std::to_string of each count. */
  function VcbKey(r: RackAnalysis): String
  {
    Decimal(r.vowels) + "/" + Decimal(r.consonants) + "/" + Decimal(r.blanks)
  }

  /** One "%d/" of sscanf: a run of digits and the slash after it, giving
    * the number and the rest of the text. */
  function Field(s: String): Option<(nat, String)>
  {
    var i := Span(Digit, s);
    if i == 0 || i == |s| || s[i] != '/' then None else Some((DecValue(s[..i]), s[i + 1..]))
  }

  /** The last "%d": a nonempty run of digits to the end of the text. */
  function Last(u: String): Option<nat>
  {
    if u == [] || Span(Digit, u) != |u| then None else Some(DecValue(u))
  }

  /** sscanf "%d/%d/%d" on a key made of digit runs: the three numbers, or
    * None when the key is not of that form. */
  function ParseVcb(s: String): Option<(nat, nat, nat)>
  {
    match Field(s)
    case None => None
    case Some((v, t)) =>
      match Field(t)
      case None => None
      case Some((c, u)) =>
        match Last(u)
        case None => None
        case Some(b) => Some((v, c, b))
  }

  /** A digit run ends where the slash after it starts. */
  lemma {:induction false} SpanDigits(d: String, rest: String)
    requires All(Digit, d) && (rest == [] || rest[0] == '/')
    ensures Span(Digit, d + rest) == |d|
    decreases |d|
  {
    if d != [] {
      assert (d + rest)[1..] == d[1..] + rest;
      SpanDigits(d[1..], rest);
    }
  }

  /** std::to_string of n then a slash reads back as n. */
  lemma FieldOf(n: nat, rest: String)
    ensures Field(Decimal(n) + "/" + rest) == Some((n, rest))
  {
    var d := Decimal(n);
    DecimalValue(n);
    var s := d + "/" + rest;
    assert s == d + ("/" + rest);
    SpanDigits(d, "/" + rest);
    assert s[..|d|] == d && s[|d| + 1..] == rest;
  }

  /** std::to_string of n at the end of the text reads back as n. */
  lemma LastOf(n: nat)
    ensures Last(Decimal(n)) == Some(n)
  {
    DecimalValue(n);
    SpanDigits(Decimal(n), []);
    assert Decimal(n) + [] == Decimal(n);
  }

  /** A key reads back as the counts it was made from. */
  lemma VcbRoundTrip(r: RackAnalysis)
    ensures ParseVcb(VcbKey(r)) == Some((r.vowels, r.consonants, r.blanks))
  {
    var b := Decimal(r.blanks);
    var t := Decimal(r.consonants) + "/" + b;
    assert VcbKey(r) == Decimal(r.vowels) + "/" + t;
    FieldOf(r.vowels, t);
    FieldOf(r.consonants, b);
    LastOf(r.blanks);
  }

  /** The comparator of the rack-composition table on parsed keys: fewer
    * blanks first, then fewer vowels, then fewer consonants. */
  predicate VcbBefore(a: (nat, nat, nat), b: (nat, nat, nat))
  {
    if a.2 != b.2 then a.2 < b.2
    else if a.0 != b.0 then a.0 < b.0
    else a.1 < b.1
  }

  /** The comparator is a strict total order, as std::sort requires. */
  lemma VcbOrder(a: (nat, nat, nat), b: (nat, nat, nat), c: (nat, nat, nat))
    ensures !VcbBefore(a, a)
    ensures VcbBefore(a, b) && VcbBefore(b, c) ==> VcbBefore(a, c)
    ensures a != b ==> VcbBefore(a, b) || VcbBefore(b, a)
  {
  }

  /** The comparator on two keys: each is read with sscanf, then compared. */
  predicate KeyBefore(a: String, b: String)
    requires ParseVcb(a).Some? && ParseVcb(b).Some?
  {
    VcbBefore(ParseVcb(a).value, ParseVcb(b).value)
  }

  /** The keys of two analyses compare as their (blanks, vowels, consonants). */
  lemma KeyOrder(r: RackAnalysis, q: RackAnalysis)
    ensures ParseVcb(VcbKey(r)).Some? && ParseVcb(VcbKey(q)).Some?
    ensures KeyBefore(VcbKey(r), VcbKey(q)) <==>
      r.blanks < q.blanks || (r.blanks == q.blanks && (r.vowels < q.vowels || (r.vowels == q.vowels && r.consonants < q.consonants)))
  {
    VcbRoundTrip(r);
    VcbRoundTrip(q);
  }
}
