/** The library's StringUtility module: `uid` assembles an identifier from an
    optional prefix, a random segment and an optional suffix; `uri` turns
    free text into a lower-case, hyphen-delimited resource name and probes an
    availability predicate for a free variant of it. */
module StringUtility {
  import opened Chars
  import opened Decimal

  datatype Option<T> = None | Some(value: T)

  // ---------------------------------------------------------------- uid

  /** Length of the random segment. */
  const SegmentLength: nat := 16

  /** What the random source is taken to deliver: a fixed number of
      characters drawn from [A-Z0-9]. */
  predicate IsSegment(segment: string)
  {
    |segment| == SegmentLength &&
    forall i :: 0 <= i < |segment| ==> IsUpper(segment[i]) || IsDigit(segment[i])
  }

  /** A decoration counts as given when it is present and not empty; a
      missing, null or empty one is omitted. */
  predicate Given(decoration: Option<string>)
  {
    decoration.Some? && decoration.value != ""
  }

  function PrefixPart(prefix: Option<string>): string
  {
    if Given(prefix) then prefix.value + "-" else ""
  }

  function SuffixPart(suffix: Option<string>): string
  {
    if Given(suffix) then "." + suffix.value else ""
  }

  /** `uid(prefix, suffix)`, with the random segment passed in. */
  function Uid(prefix: Option<string>, suffix: Option<string>, segment: string): (r: string)
    ensures Given(prefix) ==> |r| > |prefix.value| && r[..|prefix.value| + 1] == prefix.value + "-"
    ensures Given(suffix) ==> |r| > |suffix.value| && r[|r| - |suffix.value| - 1..] == "." + suffix.value
    ensures !Given(prefix) ==> |r| >= |segment| && r[..|segment|] == segment
    ensures !Given(suffix) ==> |r| >= |segment| && r[|r| - |segment|..] == segment
  {
    var head, tail := PrefixPart(prefix), SuffixPart(suffix);
    var r := head + segment + tail;
    assert r[..|head|] == head && r[|r| - |tail|..] == tail;
    assert r[|head|..|head| + |segment|] == segment;
    r
  }

  /** Takes an identifier apart again: the segment between the decorations
      that `prefix` and `suffix` call for, if `r` carries both of them. */
  function SegmentOf(r: string, prefix: Option<string>, suffix: Option<string>): Option<string>
  {
    var head, tail := PrefixPart(prefix), SuffixPart(suffix);
    if |head| + |tail| <= |r| && r[..|head|] == head && r[|r| - |tail|..] == tail
    then Some(r[|head|..|r| - |tail|])
    else None
  }

  /** `r` has the identifier format `[PREFIX-]SEGMENT[.SUFFIX]` for the given
      decorations. */
  predicate IsIdentifier(r: string, prefix: Option<string>, suffix: Option<string>)
  {
    SegmentOf(r, prefix, suffix).Some? && IsSegment(SegmentOf(r, prefix, suffix).value)
  }

  /** The segment can be read back from an identifier. */
  lemma UidSegmentRoundTrip(prefix: Option<string>, suffix: Option<string>, segment: string)
    ensures SegmentOf(Uid(prefix, suffix, segment), prefix, suffix) == Some(segment)
  {
    var head, tail := PrefixPart(prefix), SuffixPart(suffix);
    var r := Uid(prefix, suffix, segment);
    assert r[..|head|] == head;
    assert r[|r| - |tail|..] == tail;
    assert r[|head|..|r| - |tail|] == segment;
  }

  /** An identifier is exactly what `Uid` builds from some segment: every
      string of the format is the uid of the segment it carries, and every
      uid of a well-formed segment has the format. */
  lemma IdentifierIffUid(r: string, prefix: Option<string>, suffix: Option<string>)
    ensures IsIdentifier(r, prefix, suffix) ==>
              r == Uid(prefix, suffix, SegmentOf(r, prefix, suffix).value)
    ensures forall segment :: IsSegment(segment) && r == Uid(prefix, suffix, segment) ==>
              IsIdentifier(r, prefix, suffix)
  {
    var head, tail := PrefixPart(prefix), SuffixPart(suffix);
    if SegmentOf(r, prefix, suffix).Some? {
      var segment := SegmentOf(r, prefix, suffix).value;
      assert r == r[..|head|] + r[|head|..|r| - |tail|] + r[|r| - |tail|..];
      assert r == head + segment + tail;
    }
    forall segment | IsSegment(segment) && r == Uid(prefix, suffix, segment)
      ensures IsIdentifier(r, prefix, suffix)
    {
      UidSegmentRoundTrip(prefix, suffix, segment);
    }
  }

  /** Without decorations, a uid is its own upper-case form. */
  lemma UidBareIsUppercase(prefix: Option<string>, suffix: Option<string>, segment: string)
    requires !Given(prefix) && !Given(suffix)
    requires IsSegment(segment)
    ensures Upper(Uid(prefix, suffix, segment)) == Uid(prefix, suffix, segment)
  {
    var r := Uid(prefix, suffix, segment);
    assert r == segment;
    UpperFixedIff(r);
  }

  /** The decorations are not upper-cased: a prefix with a small letter in it
      makes the uid differ from its own upper-case form. */
  lemma UidKeepsPrefixCase(prefix: string, suffix: Option<string>, segment: string, i: nat)
    requires i < |prefix| && IsLower(prefix[i])
    ensures Upper(Uid(Some(prefix), suffix, segment)) != Uid(Some(prefix), suffix, segment)
  {
    var r := Uid(Some(prefix), suffix, segment);
    assert r[i] == prefix[i];
    UpperFixedIff(r);
  }

  // ------------------------------------------------------- normalisation

  predicate AllAscii(s: string)
  {
    forall i :: 0 <= i < |s| ==> IsAscii(s[i])
  }

  /** Deletes every non-ASCII character, keeping the others in order. */
  function StripNonAscii(s: string): (r: string)
    ensures |r| <= |s| && AllAscii(r)
    ensures AllAscii(s) ==> r == s
  {
    if s == [] then []
    else if IsAscii(s[0]) then [s[0]] + StripNonAscii(s[1..])
    else StripNonAscii(s[1..])
  }

  /** Exactly the ASCII characters of the text survive. */
  lemma {:induction false} StripKeepsAsciiCharacters(s: string, c: char)
    ensures c in StripNonAscii(s) <==> c in s && IsAscii(c)
    decreases |s|
  {
    if s != [] {
      StripKeepsAsciiCharacters(s[1..], c);
      assert s == [s[0]] + s[1..];
    }
  }

  /** Stripping works character by character and keeps the order: the
      stripped concatenation is the concatenation of the stripped parts. */
  lemma {:induction false} StripDistributes(a: string, b: string)
    ensures StripNonAscii(a + b) == StripNonAscii(a) + StripNonAscii(b)
    decreases |a|
  {
    if a == [] {
      assert a + b == b;
    } else {
      assert (a + b)[0] == a[0] && (a + b)[1..] == a[1..] + b;
      StripDistributes(a[1..], b);
    }
  }

  predicate AllHyphens(s: string)
  {
    forall i :: 0 <= i < |s| ==> s[i] == '-'
  }

  /** The length of the run of hyphens at the front. */
  function LeadingHyphens(s: string): (n: nat)
    ensures n <= |s| && AllHyphens(s[..n])
    ensures n < |s| ==> s[n] != '-'
  {
    if s != [] && s[0] == '-' then
      var n := 1 + LeadingHyphens(s[1..]);
      assert s[..n] == [s[0]] + s[1..][..n - 1];
      n
    else 0
  }

  /** The length of the run of hyphens at the end. */
  function TrailingHyphens(s: string): (n: nat)
    ensures n <= |s| && AllHyphens(s[|s| - n..])
    ensures n < |s| ==> s[|s| - n - 1] != '-'
  {
    if s != [] && s[|s| - 1] == '-' then
      var n := 1 + TrailingHyphens(s[..|s| - 1]);
      assert s[|s| - n..] == s[..|s| - 1][|s| - n..] + [s[|s| - 1]];
      n
    else 0
  }

  /** Drops the run of hyphens at the front: what is left is a tail of `s`
      that does not start with a hyphen, and only hyphens were dropped. */
  function TrimLeadingHyphens(s: string): (r: string)
    ensures |r| <= |s| && r == s[|s| - |r|..] && AllHyphens(s[..|s| - |r|])
    ensures r != [] ==> r[0] != '-'
  {
    s[LeadingHyphens(s)..]
  }

  /** Drops the run of hyphens at the end: what is left is a head of `s`
      that does not end with a hyphen, and only hyphens were dropped. */
  function TrimTrailingHyphens(s: string): (r: string)
    ensures |r| <= |s| && r == s[..|r|] && AllHyphens(s[|r|..])
    ensures r != [] ==> r[|r| - 1] != '-'
  {
    s[..|s| - TrailingHyphens(s)]
  }

  /** ASCII without capitals. */
  predicate IsClean(s: string)
  {
    forall i :: 0 <= i < |s| ==> IsAscii(s[i]) && !IsUpper(s[i])
  }

  /** The text with its non-ASCII characters deleted and lower-cased: what
      the trimming works on. */
  function Folded(text: string): (f: string)
    ensures IsClean(f)
  {
    Lower(StripNonAscii(text))
  }

  /** A tail of a head of a clean string is clean. */
  lemma CleanSlice(s: string, a: nat)
    requires IsClean(s) && a <= |s|
    ensures IsClean(s[a..]) && forall b :: a <= b <= |s| ==> IsClean(s[..b])
  {
  }

  /** The resource name `uri` derives from free text before any probing. */
  function Normalize(text: string): (slug: string)
    ensures slug != [] && IsClean(slug)
    ensures slug == "-" || (slug[0] != '-' && slug[|slug| - 1] != '-')
  {
    var f := Folded(text);
    var lead := TrimLeadingHyphens(f);
    var core := TrimTrailingHyphens(lead);
    CleanSlice(f, |f| - |lead|);
    CleanSlice(lead, 0);
    if core == [] then "-" else core
  }

  /** `inner` stands in `s` at offset `a`, with only hyphens around it. */
  predicate FlankedByHyphens(s: string, inner: string, a: nat)
  {
    a + |inner| <= |s| && s[a..a + |inner|] == inner &&
    AllHyphens(s[..a]) && AllHyphens(s[a + |inner|..])
  }

  /** Trimming both ends leaves nothing exactly when the string is all
      hyphens. */
  lemma TrimmedEmptyIff(f: string)
    ensures TrimTrailingHyphens(TrimLeadingHyphens(f)) == [] <==> AllHyphens(f)
  {
    var lead := TrimLeadingHyphens(f);
    if TrimTrailingHyphens(lead) == [] {
      assert AllHyphens(lead);
      assert f == f[..|f| - |lead|] + lead;
    } else if lead != [] {
      assert f[|f| - |lead|] == lead[0];
    }
  }

  /** Otherwise trimming leaves a slice with only hyphens around it. */
  lemma TrimmedIsFlanked(f: string)
    requires TrimTrailingHyphens(TrimLeadingHyphens(f)) != []
    ensures FlankedByHyphens(f, TrimTrailingHyphens(TrimLeadingHyphens(f)), |f| - |TrimLeadingHyphens(f)|)
  {
    var lead := TrimLeadingHyphens(f);
    var core := TrimTrailingHyphens(lead);
    var a := |f| - |lead|;
    assert f[a..a + |core|] == lead[..|core|];
    assert f[a + |core|..] == lead[|core|..];
  }

  /** The name is the folded text with the hyphens around it removed: it is
      "-" exactly when the folded text holds nothing but hyphens, and
      otherwise it is a slice of the folded text with only hyphens outside
      it. */
  lemma NormalizeIsTrimmedFold(text: string)
    ensures Normalize(text) == "-" <==> AllHyphens(Folded(text))
    ensures Normalize(text) != "-" ==> exists a :: FlankedByHyphens(Folded(text), Normalize(text), a)
  {
    var f := Folded(text);
    TrimmedEmptyIff(f);
    var lead := TrimLeadingHyphens(f);
    var core := TrimTrailingHyphens(lead);
    if core != [] {
      TrimmedIsFlanked(f);
      assert core[0] != '-';
      assert FlankedByHyphens(f, Normalize(text), |f| - |lead|);
    }
  }

  /** The shape of every name normalisation produces other than "-":
      non-empty, ASCII, no capitals, no hyphen at either end. */
  predicate IsNormalForm(s: string)
  {
    s != [] && s[0] != '-' && s[|s| - 1] != '-' && IsClean(s)
  }

  lemma TrimNormalForm(s: string)
    requires IsNormalForm(s)
    ensures TrimTrailingHyphens(TrimLeadingHyphens(s)) == s
  {
    assert LeadingHyphens(s) == 0;
    assert TrimLeadingHyphens(s) == s;
    assert TrailingHyphens(s) == 0;
  }

  /** Folding leaves a text unchanged exactly when it is already ASCII
      without capitals. */
  lemma FoldedFixedIff(s: string)
    ensures Folded(s) == s <==> IsClean(s)
  {
    if IsClean(s) {
      assert StripNonAscii(s) == s;
      LowerWithoutCapitals(s);
    }
  }

  /** The names normalisation leaves unchanged are exactly "-" and the
      strings of normal form. */
  lemma NormalizeFixedPoints(text: string)
    ensures Normalize(text) == text <==> text == "-" || IsNormalForm(text)
  {
    if IsNormalForm(text) {
      FoldedFixedIff(text);
      TrimNormalForm(text);
    } else if text == "-" {
      assert Folded("-") == "-";
      assert TrimLeadingHyphens("-") == [];
    }
  }

  /** Normalising a name that is already normalised changes nothing. */
  lemma NormalizeIdempotent(text: string)
    ensures Normalize(Normalize(text)) == Normalize(text)
  {
    NormalizeFixedPoints(Normalize(text));
  }

  // ------------------------------------------------------------- probing

  /** The `n`-th name probed: the name itself first, then the name with the
      counter joined by one hyphen. */
  function Candidate(base: string, n: nat): (c: string)
    ensures |c| >= |base| && c[..|base|] == base
    ensures n == 0 <==> c == base
    ensures n > 0 ==> (|c| > |base| + 1 && c[|base|] == '-' &&
      IsPositiveNumeral(c[|base| + 1..]) && ToNat(c[|base| + 1..]) == n)
  {
    if n == 0 then base
    else
      var c := base + "-" + FromNat(n);
      assert c[|base| + 1..] == FromNat(n);
      ToNatFromNat(n);
      c
  }

  /** Reads the counter back from a candidate of `base`. */
  function CounterOf(base: string, candidate: string): Option<nat>
  {
    if candidate == base then Some(0)
    else if |candidate| > |base| + 1 && candidate[..|base|] == base && candidate[|base|] == '-'
            && IsPositiveNumeral(candidate[|base| + 1..])
    then Some(ToNat(candidate[|base| + 1..]))
    else None
  }

  /** A string is the `n`-th candidate exactly when its counter reads `n`. */
  lemma CounterOfIff(base: string, candidate: string, n: nat)
    ensures CounterOf(base, candidate) == Some(n) <==> candidate == Candidate(base, n)
  {
    if candidate == Candidate(base, n) && n > 0 {
      var c := Candidate(base, n);
      assert c[..|base|] == base && c[|base| + 1..] == FromNat(n);
      ToNatFromNat(n);
    }
    if CounterOf(base, candidate) == Some(n) && candidate != base {
      var digits := candidate[|base| + 1..];
      FromNatToNat(digits);
      ToNatPositive(digits);
      assert candidate == candidate[..|base|] + "-" + digits;
    }
  }

  /** After a normalised name other than "-", the counter is joined with
      exactly one hyphen: the name does not end in one, and only digits
      follow it. */
  lemma CounterJoinedByOneHyphen(text: string, n: nat)
    requires n > 0 && Normalize(text) != "-"
    ensures var base, c := Normalize(text), Candidate(Normalize(text), n);
      |c| > |base| + 1 && c[..|base|] == base && c[|base| - 1] != '-' &&
      c[|base|] == '-' && IsPositiveNumeral(c[|base| + 1..])
  {
    var base := Normalize(text);
    var c := Candidate(base, n);
    assert c[|base| + 1..] == FromNat(n);
  }

  /** The candidates probed for counters 0 through `k`, in order. */
  function ProbeLog(base: string, k: nat): (log: seq<string>)
    ensures |log| == k + 1
    ensures forall i :: 0 <= i <= k ==> log[i] == Candidate(base, i)
  {
    if k == 0 then [base] else ProbeLog(base, k - 1) + [Candidate(base, k)]
  }

  /** The probes carry the counters 0, 1, 2, ... in strictly increasing
      order, so no candidate is probed twice. */
  lemma ProbeCountersIncrease(base: string, k: nat, i: nat, j: nat)
    requires i < j <= k
    ensures CounterOf(base, ProbeLog(base, k)[i]) == Some(i)
    ensures CounterOf(base, ProbeLog(base, k)[j]) == Some(j)
    ensures ProbeLog(base, k)[i] != ProbeLog(base, k)[j]
  {
    CounterOfIff(base, ProbeLog(base, k)[i], i);
    CounterOfIff(base, ProbeLog(base, k)[j], j);
  }

  /** The predicate accepts some candidate: the answer of call `i` is
      `answers[i]`, and one of them is true. */
  predicate SomeAvailable(answers: seq<bool>)
  {
    true in answers
  }

  /** The number of the first call that the predicate answers true. */
  function FirstAvailable(answers: seq<bool>): (k: nat)
    requires SomeAvailable(answers)
    ensures k < |answers| && answers[k]
    ensures forall i :: 0 <= i < k ==> !answers[i]
  {
    if answers[0] then 0
    else
      assert SomeAvailable(answers[1..]) by {
        assert answers == [answers[0]] + answers[1..];
      }
      1 + FirstAvailable(answers[1..])
  }

  /** The outcome of one `uri` call: the name returned and the argument of
      every call made to the predicate, in order. */
  datatype Resolution = Resolution(uri: string, probes: seq<string>)

  /** The first probe is the normalised name and probe `i` its `i`-th
      candidate; every probe but the last is answered false, and the last,
      which is the name returned, true. */
  function Resolve(text: string, answers: seq<bool>): (res: Resolution)
    requires SomeAvailable(answers)
    ensures res.probes != [] && res.probes[0] == Normalize(text)
    ensures res.uri == res.probes[|res.probes| - 1]
    ensures forall i :: 0 <= i < |res.probes| ==> res.probes[i] == Candidate(Normalize(text), i)
    ensures |res.probes| <= |answers| && answers[|res.probes| - 1]
    ensures forall i :: 0 <= i < |res.probes| - 1 ==> !answers[i]
  {
    var base, k := Normalize(text), FirstAvailable(answers);
    Resolution(Candidate(base, k), ProbeLog(base, k))
  }

  /** `uri(text, isAvailable)`: probes the normalised name, then the name
      joined to 1, 2, ... until the predicate accepts one, and returns it.
      `probes` is the record of the predicate's calls. */
  method Uri(text: string, answers: seq<bool>) returns (uri: string, probes: seq<string>)
    requires SomeAvailable(answers)
    ensures Resolution(uri, probes) == Resolve(text, answers)
    ensures probes != [] && probes[0] == Normalize(text) && probes[|probes| - 1] == uri
    ensures |probes| <= |answers| && answers[|probes| - 1]
    ensures forall i :: 0 <= i < |probes| - 1 ==> !answers[i]
  {
    var base := Normalize(text);
    var n := 0;
    uri := base;
    probes := [uri];
    while !answers[n]
      invariant n <= FirstAvailable(answers)
      invariant uri == Candidate(base, n) && probes == ProbeLog(base, n)
      decreases FirstAvailable(answers) - n
    {
      n := n + 1;
      uri := base + "-" + FromNat(n);
      probes := probes + [uri];
    }
    assert n == FirstAvailable(answers);
  }

  /** The answers a predicate gives to the first `bound` + 1 probes of the
      name `base`. */
  function AnswersOf(isAvailable: string -> bool, base: string, bound: nat): (answers: seq<bool>)
    ensures |answers| == bound + 1
    ensures forall i :: 0 <= i <= bound ==> answers[i] == isAvailable(Candidate(base, i))
  {
    if bound == 0 then [isAvailable(base)]
    else AnswersOf(isAvailable, base, bound - 1) + [isAvailable(Candidate(base, bound))]
  }

  /** For a predicate on candidate names that accepts some candidate, the
      name returned is the first candidate the predicate accepts: it accepts
      the result and rejects every earlier probe. */
  lemma ResolveReturnsFirstAccepted(text: string, isAvailable: string -> bool, bound: nat)
    requires isAvailable(Candidate(Normalize(text), bound))
    ensures var base := Normalize(text);
      var answers := AnswersOf(isAvailable, base, bound);
      SomeAvailable(answers) &&
      var r := Resolve(text, answers);
      isAvailable(r.uri) && r.uri == r.probes[|r.probes| - 1] &&
      forall i :: 0 <= i < |r.probes| - 1 ==> !isAvailable(r.probes[i])
  {
    var answers := AnswersOf(isAvailable, Normalize(text), bound);
    assert answers[bound];
  }
}
