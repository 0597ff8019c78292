/** Output names: sequential numbering, and suffixes that make a name unique. */
module Naming {
  import opened Bytes

  const SEQUENTIAL_DIGITS: nat := 3

  // ---------- decimal numerals ----------

  function Digit(d: nat): char
    requires d < 10
  {
    "0123456789"[d]
  }

  function Numeral(n: nat): string {
    if n < 10 then [Digit(n)] else Numeral(n / 10) + [Digit(n % 10)]
  }

  function DigitValue(c: char): int {
    c as int - '0' as int
  }

  /** What a string of digits stands for; leading zeros do not matter. */
  function Value(s: string): int {
    if s == "" then 0 else 10 * Value(s[..|s| - 1]) + DigitValue(s[|s| - 1])
  }

  lemma {:induction false} ValueOfNumeral(n: nat)
    ensures Value(Numeral(n)) == n
    decreases n
  {
    var last := [Digit(n % 10)];
    assert DigitValue(last[0]) == n % 10;
    if n < 10 {
      assert last[..0] == "";
    } else {
      ValueOfNumeral(n / 10);
      assert (Numeral(n / 10) + last)[..|Numeral(n / 10)|] == Numeral(n / 10);
    }
  }

  /** n in decimal, at least three characters wide. */
  function Padded(n: nat): string {
    var digits := Numeral(n);
    if |digits| < SEQUENTIAL_DIGITS then seq(SEQUENTIAL_DIGITS - |digits|, i => '0') + digits else digits
  }

  lemma {:induction false} ValueOfZeros(k: nat, s: string)
    ensures Value(seq(k, i => '0') + s) == Value(s)
    decreases |s|, k
  {
    var zeros := seq(k, i => '0');
    if s == "" {
      assert zeros + s == zeros;
      if k > 0 {
        assert zeros[..k - 1] == seq(k - 1, i => '0');
        ValueOfZeros(k - 1, "");
        assert seq(k - 1, i => '0') + "" == seq(k - 1, i => '0');
      }
    } else {
      assert (zeros + s)[..|zeros + s| - 1] == zeros + s[..|s| - 1];
      ValueOfZeros(k, s[..|s| - 1]);
    }
  }

  lemma ValueOfPadded(n: nat)
    ensures Value(Padded(n)) == n
  {
    ValueOfNumeral(n);
    var digits := Numeral(n);
    if |digits| < SEQUENTIAL_DIGITS {
      ValueOfZeros(SEQUENTIAL_DIGITS - |digits|, digits);
    }
  }

  function SequentialFilename(index: int, ext: string): string {
    Padded(if index < 0 then 0 else index) + ext
  }

  /** Different positions get different names. */
  lemma SequentialNamesDiffer(i: nat, j: nat, ext: string)
    requires SequentialFilename(i, ext) == SequentialFilename(j, ext)
    ensures i == j
  {
    var a, b := Padded(i), Padded(j);
    assert |a| == |b|;
    assert (a + ext)[..|a|] == a && (b + ext)[..|b|] == b;
    ValueOfPadded(i);
    ValueOfPadded(j);
  }

  /** Decimal digits only, at least three, and more than three only when the number needs them; then the extension. */
  ghost predicate Numbered(name: string, n: nat, ext: string) {
    && |ext| + 3 <= |name| && name[|name| - |ext|..] == ext
    && var digits := name[..|name| - |ext|];
       && (forall i :: 0 <= i < |digits| ==> '0' <= digits[i] <= '9')
       && (|digits| > 3 ==> digits[0] != '0') && Value(digits) == n
  }

  lemma {:induction false} NumeralIsDigits(n: nat)
    ensures Numeral(n) != "" && (n > 0 ==> Numeral(n)[0] != '0')
    ensures forall i :: 0 <= i < |Numeral(n)| ==> '0' <= Numeral(n)[i] <= '9'
    decreases n
  {
    if n >= 10 {
      NumeralIsDigits(n / 10);
    }
  }

  lemma PaddedIsDigits(n: nat)
    ensures |Padded(n)| >= 3 && (|Padded(n)| > 3 ==> Padded(n)[0] != '0')
    ensures forall i :: 0 <= i < |Padded(n)| ==> '0' <= Padded(n)[i] <= '9'
  {
    NumeralIsDigits(n);
    assert |Padded(n)| > 3 ==> Padded(n) == Numeral(n) && n > 0;
  }

  /** The name of output number n reads n, and keeps the extension. */
  lemma SequentialNameReads(n: nat, ext: string)
    ensures Numbered(SequentialFilename(n, ext), n, ext)
  {
    var name := SequentialFilename(n, ext);
    PaddedIsDigits(n);
    ValueOfPadded(n);
    assert name[|name| - |ext|..] == ext && name[..|name| - |ext|] == Padded(n);
  }

  /** Digits count as in decimal. */
  lemma ValueIsDecimal(front: string, d: char)
    ensures Value(front + [d]) == 10 * Value(front) + (d as int - 48) && Value("") == 0
  {
    assert (front + [d])[..|front|] == front;
  }

  // ---------- making a name unique ----------

  /** The part of name from its last dot on, unless a path separator comes first. */
  function Extension(name: string): string {
    if name == "" || name[|name| - 1] == '/' then ""
    else if name[|name| - 1] == '.' then "."
    else
      var front := Extension(name[..|name| - 1]);
      if front == "" then "" else front + [name[|name| - 1]]
  }

  lemma {:induction false} ExtensionIsSuffix(name: string)
    ensures |Extension(name)| <= |name| && name[|name| - |Extension(name)|..] == Extension(name)
    decreases |name|
  {
    if name != "" && name[|name| - 1] != '/' && name[|name| - 1] != '.' {
      ExtensionIsSuffix(name[..|name| - 1]);
    }
  }

  function Base(name: string): string {
    ExtensionIsSuffix(name);
    name[..|name| - |Extension(name)|]
  }

  function Candidate(name: string, suffix: nat): string {
    Base(name) + "-" + Numeral(suffix) + Extension(name)
  }

  /** name is a stem and an extension: none, or one that starts at the last dot, with no separator behind it. */
  ghost predicate Splits(name: string, stem: string, ext: string) {
    && name == stem + ext && '/' !in ext && (ext != "" ==> ext[0] == '.' && '.' !in ext[1..])
    && (ext == "" ==> forall i :: 0 <= i < |stem| && stem[i] == '.' ==> exists j :: i < j < |stem| && stem[j] == '/')
  }

  lemma SeparatorSplits(front: string)
    ensures Splits(front + "/", front + "/", "")
  {
    var name := front + "/";
    assert name == name + "";
    forall i | 0 <= i < |name| && name[i] == '.' ensures exists j :: i < j < |name| && name[j] == '/' {
      assert i < |front| && name[|front|] == '/';
    }
  }

  /** One more character, no dot and no separator, joins the extension if there is one. */
  lemma SplitsOn(name: string, stem: string, ext: string, c: char)
    requires Splits(name, stem, ext) && c != '.' && c != '/'
    ensures if ext == "" then Splits(name + [c], name + [c], "") else Splits(name + [c], stem, ext + [c])
  {
    var longer := name + [c];
    if ext == "" {
      assert longer == longer + "";
      forall i | 0 <= i < |longer| && longer[i] == '.' ensures exists j :: i < j < |longer| && longer[j] == '/' {
        assert stem[i] == '.';
        var j :| i < j < |stem| && stem[j] == '/';
        assert longer[j] == '/';
      }
    } else {
      assert longer == stem + (ext + [c]) && (ext + [c])[1..] == ext[1..] + [c];
    }
  }

  lemma {:induction false} ExtensionSplits(name: string)
    ensures |Extension(name)| <= |name| && Splits(name, name[..|name| - |Extension(name)|], Extension(name))
    decreases |name|
  {
    ExtensionIsSuffix(name);
    if name != "" {
      var front, c := name[..|name| - 1], name[|name| - 1];
      assert name == front + [c];
      if c == '.' {
        assert Splits(name, front, ".");
      } else if c == '/' {
        SeparatorSplits(front);
      } else {
        ExtensionSplits(front);
        ExtensionIsSuffix(front);
        SplitsOn(front, front[..|front| - |Extension(front)|], Extension(front), c);
      }
    }
  }

  /** A candidate puts a dash and the number between stem and extension. */
  lemma CandidateReads(name: string, suffix: nat)
    ensures exists stem, ext, digits :: Splits(name, stem, ext) && Value(digits) == suffix
              && (forall i :: 0 <= i < |digits| ==> '0' <= digits[i] <= '9')
              && (suffix > 0 ==> digits != "" && digits[0] != '0')
              && Candidate(name, suffix) == stem + "-" + digits + ext
  {
    ExtensionSplits(name);
    ExtensionIsSuffix(name);
    ValueOfNumeral(suffix);
    NumeralIsDigits(suffix);
    assert Splits(name, Base(name), Extension(name));
  }

  lemma CandidatesDiffer(name: string, i: nat, j: nat)
    requires Candidate(name, i) == Candidate(name, j)
    ensures i == j
  {
    var front, ext, a, b := Base(name) + "-", Extension(name), Numeral(i), Numeral(j);
    assert front + a + ext == front + b + ext && |a| == |b|;
    assert (front + a + ext)[|front|..|front| + |a|] == a && (front + b + ext)[|front|..|front| + |b|] == b;
    ValueOfNumeral(i);
    ValueOfNumeral(j);
  }

  /** Every taken candidate from suffix on is still in left. */
  ghost predicate Covers(name: string, suffix: nat, existing: set<string>, left: set<string>) {
    forall k: nat :: k >= suffix && Candidate(name, k) in existing ==> Candidate(name, k) in left
  }

  lemma CoversNext(name: string, suffix: nat, existing: set<string>, left: set<string>)
    requires Covers(name, suffix, existing, left)
    ensures Covers(name, suffix + 1, existing, left - {Candidate(name, suffix)})
  {
    forall k: nat | k >= suffix + 1 && Candidate(name, k) in existing
      ensures Candidate(name, k) in left - {Candidate(name, suffix)}
    {
      if Candidate(name, k) == Candidate(name, suffix) {
        CandidatesDiffer(name, k, suffix);
      }
    }
  }

  /** The first free suffix from the given one on. */
  function FirstFree(name: string, suffix: nat, existing: set<string>, ghost left: set<string>): (r: nat)
    requires Covers(name, suffix, existing, left)
    ensures r >= suffix && Candidate(name, r) !in existing
    decreases |left|
  {
    if Candidate(name, suffix) !in existing then suffix
    else
      CoversNext(name, suffix, existing, left);
      FirstFree(name, suffix + 1, existing, left - {Candidate(name, suffix)})
  }

  function Unique(name: string, existing: set<string>): (r: string)
    ensures r !in existing
    ensures name !in existing ==> r == name
  {
    if name !in existing then name else Candidate(name, FirstFree(name, 2, existing, existing))
  }

  ghost predicate IsLeastFree(name: string, k: nat, existing: set<string>) {
    && k >= 2 && Candidate(name, k) !in existing
    && forall j: nat :: 2 <= j < k ==> Candidate(name, j) in existing
  }

  /** The loop that looks for a free suffix always ends: taken candidates are distinct and finitely many. */
  method DeduplicateFilename(name: string, existing: set<string>) returns (r: string, updated: set<string>)
    ensures r == Unique(name, existing) && updated == existing + {r}
    ensures name in existing ==> exists k: nat :: IsLeastFree(name, k, existing) && r == Candidate(name, k)
  {
    if name !in existing {
      return name, existing + {name};
    }
    var suffix: nat := 2;
    ghost var left := existing;
    while true
      invariant suffix >= 2 && Covers(name, suffix, existing, left)
      invariant forall k: nat :: 2 <= k < suffix ==> Candidate(name, k) in existing
      decreases |left|
    {
      var candidate := Candidate(name, suffix);
      if candidate !in existing {
        FirstFreeIsLeast(name, 2, suffix, existing, existing);
        assert IsLeastFree(name, suffix, existing);
        return candidate, existing + {candidate};
      }
      CoversNext(name, suffix, existing, left);
      left := left - {candidate};
      suffix := suffix + 1;
    }
  }

  lemma {:induction false} FirstFreeIsLeast(name: string, from: nat, suffix: nat, existing: set<string>,
                                            left: set<string>)
    requires from <= suffix && Covers(name, from, existing, left) && Candidate(name, suffix) !in existing
    requires forall k :: from <= k < suffix ==> Candidate(name, k) in existing
    ensures FirstFree(name, from, existing, left) == suffix
    decreases suffix - from
  {
    if from < suffix {
      CoversNext(name, from, existing, left);
      FirstFreeIsLeast(name, from + 1, suffix, existing, left - {Candidate(name, from)});
    }
  }

  function NamesUpTo(ext: string, n: nat): set<string> {
    set i: nat | 1 <= i <= n :: SequentialFilename(i, ext)
  }

  lemma NextNameIsFree(ext: string, n: nat)
    ensures SequentialFilename(n + 1, ext) !in NamesUpTo(ext, n)
    ensures NamesUpTo(ext, n) + {SequentialFilename(n + 1, ext)} == NamesUpTo(ext, n + 1)
  {
    if SequentialFilename(n + 1, ext) in NamesUpTo(ext, n) {
      var i: nat :| 1 <= i <= n && SequentialFilename(i, ext) == SequentialFilename(n + 1, ext);
      SequentialNamesDiffer(i, n + 1, ext);
    }
  }

  // ---------- names given by the caller ----------

  datatype NamesResult = Names(names: seq<string>) | InvalidName(index: nat) | DuplicateName(index: nat)

  ghost predicate AllDistinct(names: seq<string>, key: string -> string) {
    forall i, j :: 0 <= i < j < |names| ==> key(names[i]) != key(names[j])
  }

  /** Two accepted fragments with equal basenames. */
  ghost predicate Clash(fragments: seq<string>, finalize: string -> Option<string>, key: string -> string, i: int,
                        j: int)
  {
    && 0 <= i < j < |fragments| && finalize(fragments[i]).Some? && finalize(fragments[j]).Some?
    && key(finalize(fragments[i]).value) == key(finalize(fragments[j]).value)
  }

  /** finalize turns a fragment into a basename or refuses it; key says when two basenames count as equal. The result
      is decided by the first fragment that is refused or repeats an earlier one. */
  method ApplyExplicitBasenames(fragments: seq<string>, finalize: string -> Option<string>, key: string -> string)
    returns (r: NamesResult)
    ensures r.Names? ==> |r.names| == |fragments| && AllDistinct(r.names, key)
    ensures r.Names? ==> forall i :: 0 <= i < |fragments| ==> finalize(fragments[i]) == Some(r.names[i])
    ensures r.InvalidName? ==> r.index < |fragments| && finalize(fragments[r.index]) == None
    ensures r.DuplicateName? ==> r.index < |fragments| && exists i :: Clash(fragments, finalize, key, i, r.index)
    ensures !r.Names? ==> forall i, j :: 0 <= i < j < r.index ==>
      !Clash(fragments, finalize, key, i, j)
    ensures !r.Names? ==> forall i :: 0 <= i < r.index ==> finalize(fragments[i]).Some?
  {
    var out: seq<string> := [];
    var seen: set<string> := {};
    for i := 0 to |fragments|
      invariant |out| == i && AllDistinct(out, key)
      invariant forall k :: 0 <= k < i ==> finalize(fragments[k]) == Some(out[k])
      invariant forall k :: 0 <= k < i ==> key(out[k]) in seen
      invariant forall x :: x in seen ==> exists k :: 0 <= k < i && key(out[k]) == x
    {
      var base := finalize(fragments[i]);
      if base == None {
        return InvalidName(i);
      }
      if key(base.value) in seen {
        var k :| 0 <= k < i && key(out[k]) == key(base.value);
        assert Clash(fragments, finalize, key, k, i);
        return DuplicateName(i);
      }
      seen := seen + {key(base.value)};
      out := out + [base.value];
    }
    r := Names(out);
  }
}
