/** The parts of Rust's `str` API that the five puzzle parsers use, modelled on
    sequences of characters: `lines`, `split_once`, `split`, `split_whitespace`
    and the parsing of unsigned 32-bit integers (`parse::<u32>` and
    `u32::from_str_radix`).  A parse that fails where the source calls
    `unwrap` yields `None`. */
module Text {

  datatype Option<T> = None | Some(value: T)

  /** The values of a `u32` are the naturals below this bound. */
  const U32_LIMIT: nat := 0x1_0000_0000

  // ---------------------------------------------------------------- searching

  /** `sep` occurs in `s` starting at index `i`. */
  predicate OccursAt(s: string, sep: string, i: nat)
  {
    i + |sep| <= |s| && s[i..i + |sep|] == sep
  }

  /** The first index at or after `from` where `sep` occurs. */
  function FindFrom(s: string, sep: string, from: nat): (r: Option<nat>)
    requires from <= |s|
    decreases |s| - from
    ensures r.Some? ==> from <= r.value && OccursAt(s, sep, r.value)
    ensures forall i: nat :: from <= i && (r.None? || i < r.value) ==> !OccursAt(s, sep, i)
  {
    if OccursAt(s, sep, from) then Some(from)
    else if from == |s| then None
    else FindFrom(s, sep, from + 1)
  }

  /** The first index where `sep` occurs in `s`. */
  function Find(s: string, sep: string): (r: Option<nat>)
    ensures r.Some? ==> OccursAt(s, sep, r.value)
    ensures forall i: nat :: (r.None? || i < r.value) ==> !OccursAt(s, sep, i)
  {
    FindFrom(s, sep, 0)
  }

  /** When `a` does not contain the first character of `sep`, the first
      occurrence of `sep` in `a + sep + b` is right after `a`. */
  lemma FindAfter(a: string, sep: string, b: string)
    requires |sep| > 0 && sep[0] !in a
    ensures Find(a + sep + b, sep) == Some(|a|)
  {
    var s := a + sep + b;
    assert s[|a|..|a| + |sep|] == sep;
    assert OccursAt(s, sep, |a|);
    forall i: nat | i < |a|
      ensures !OccursAt(s, sep, i)
    {
      assert s[i] == a[i];
    }
  }

  /** `str::split_once`: the text before and after the first occurrence of
      `sep`, or `None` when `sep` does not occur. */
  function SplitOnce(s: string, sep: string): (r: Option<(string, string)>)
    ensures r.Some? ==> s == r.value.0 + sep + r.value.1
    ensures r.Some? ==> forall i: nat :: i < |r.value.0| ==> !OccursAt(s, sep, i)
    ensures r.None? ==> forall i: nat :: !OccursAt(s, sep, i)
  {
    match Find(s, sep)
    case None => None
    case Some(k) =>
      assert s == s[..k] + sep + s[k + |sep|..];
      Some((s[..k], s[k + |sep|..]))
  }

  lemma SplitOnceJoin(a: string, sep: string, b: string)
    requires |sep| > 0 && sep[0] !in a
    ensures SplitOnce(a + sep + b, sep) == Some((a, b))
  {
    FindAfter(a, sep, b);
    var s := a + sep + b;
    assert s[..|a|] == a;
    assert s[|a| + |sep|..] == b;
  }

  /** `split_once` finds nothing exactly when `sep` occurs nowhere. */
  lemma SplitOnceNone(s: string, sep: string)
    ensures SplitOnce(s, sep).None? <==> forall i: nat :: !OccursAt(s, sep, i)
  {
    if SplitOnce(s, sep).Some? {
      var (a, b) := SplitOnce(s, sep).value;
      assert s[|a|..|a| + |sep|] == sep;
      assert OccursAt(s, sep, |a|);
    }
  }

  /** Split at a one-character separator, the part before holds no such character. */
  lemma SplitOnceBefore(s: string, c: char)
    requires SplitOnce(s, [c]).Some?
    ensures c !in SplitOnce(s, [c]).value.0
  {
    var a := SplitOnce(s, [c]).value.0;
    forall i | 0 <= i < |a| ensures a[i] != c {
      assert !OccursAt(s, [c], i);
      assert s[i..i + 1] == [s[i]];
      assert s[i] == a[i];
    }
  }

  // -------------------------------------------------------------------- lines

  /** Drops one trailing carriage return. */
  function StripCR(l: string): string
  {
    if |l| > 0 && l[|l| - 1] == '\r' then l[..|l| - 1] else l
  }

  /** `str::lines`: the pieces between line feeds, each without the "\r" of a
      "\r\n" ending; a final empty piece (input ending in "\n") is dropped. */
  function Lines(s: string): (r: seq<string>)
    decreases |s|
    ensures forall k :: 0 <= k < |r| ==> '\n' !in r[k]
  {
    if s == [] then []
    else
      match Find(s, "\n")
      case None =>
        assert forall i :: 0 <= i < |s| ==> s[i] != '\n' by {
          forall i | 0 <= i < |s| ensures s[i] != '\n' {
            assert s[i..i + 1] == [s[i]];
            assert !OccursAt(s, "\n", i);
          }
        }
        [s]
      case Some(k) =>
        assert forall i :: 0 <= i < k ==> s[i] != '\n' by {
          forall i | 0 <= i < k ensures s[i] != '\n' {
            assert s[i..i + 1] == [s[i]];
            assert !OccursAt(s, "\n", i);
          }
        }
        [StripCR(s[..k])] + Lines(s[k + 1..])
  }

  /** A "\r\n" ending loses its carriage return along with the line feed. */
  lemma LinesCRLF(a: string, b: string)
    requires '\n' !in a
    ensures Lines(a + "\r\n" + b) == [a] + Lines(b)
  {
    var s := a + "\r\n" + b;
    assert s == (a + "\r") + "\n" + b;
    FindAfter(a + "\r", "\n", b);
    assert s[..|a| + 1] == a + "\r";
    assert s[|a| + 2..] == b;
  }

  /** A carriage return not followed by a line feed stays in its line. */
  lemma LinesLoneCR(a: string)
    requires '\n' !in a
    ensures Lines(a + "\r") == [a + "\r"]
  {
    var s := a + "\r";
    forall i: nat ensures !OccursAt(s, "\n", i) {
      if i < |s| { assert s[i..i + 1] == [s[i]]; }
    }
  }

  /** The text of `ls`, each line terminated by a line feed. */
  function JoinLines(ls: seq<string>): string
  {
    if ls == [] then "" else ls[0] + "\n" + JoinLines(ls[1..])
  }

  /** A line that `Lines` gives back unchanged. */
  predicate PlainLine(l: string)
  {
    '\n' !in l && (|l| == 0 || l[|l| - 1] != '\r')
  }

  /** `Lines` undoes `JoinLines`. */
  lemma {:induction false} LinesOfJoin(ls: seq<string>)
    requires forall k :: 0 <= k < |ls| ==> PlainLine(ls[k])
    ensures Lines(JoinLines(ls)) == ls
  {
    if ls != [] {
      var s := JoinLines(ls);
      FindAfter(ls[0], "\n", JoinLines(ls[1..]));
      assert s[..|ls[0]|] == ls[0];
      assert s[|ls[0]| + 1..] == JoinLines(ls[1..]);
      LinesOfJoin(ls[1..]);
      assert ls == [ls[0]] + ls[1..];
    }
  }

  // -------------------------------------------------------------- split(char)

  /** The pieces rejoined with `c` between them. */
  function JoinWith(parts: seq<string>, c: char): string
    requires |parts| > 0
  {
    if |parts| == 1 then parts[0] else parts[0] + [c] + JoinWith(parts[1..], c)
  }

  /** `str::split` on one character: every piece between occurrences of `c`,
      empty ones included. */
  function Split(s: string, c: char): (r: seq<string>)
    decreases |s|
    ensures |r| > 0
    ensures forall k :: 0 <= k < |r| ==> c !in r[k]
    ensures JoinWith(r, c) == s
  {
    match Find(s, [c])
    case None =>
      assert forall i :: 0 <= i < |s| ==> s[i] != c by {
        forall i | 0 <= i < |s| ensures s[i] != c {
          assert s[i..i + 1] == [s[i]];
          assert !OccursAt(s, [c], i);
        }
      }
      [s]
    case Some(k) =>
      assert forall i :: 0 <= i < k ==> s[i] != c by {
        forall i | 0 <= i < k ensures s[i] != c {
          assert s[i..i + 1] == [s[i]];
          assert !OccursAt(s, [c], i);
        }
      }
      var rest := Split(s[k + 1..], c);
      assert s == s[..k] + [c] + s[k + 1..];
      [s[..k]] + rest
  }

  /** `c` does not occur in `s`, so there is nothing to find. */
  lemma FindNoChar(s: string, c: char)
    requires c !in s
    ensures Find(s, [c]) == None
  {
    forall i: nat ensures !OccursAt(s, [c], i) {
      if i + 1 <= |s| {
        assert s[i..i + 1] == [s[i]];
        assert s[i] in s;
      }
    }
  }

  /** Splitting undoes joining when no piece contains the separator. */
  lemma {:induction false} SplitJoin(parts: seq<string>, c: char)
    requires |parts| > 0
    requires forall k :: 0 <= k < |parts| ==> c !in parts[k]
    ensures Split(JoinWith(parts, c), c) == parts
  {
    if |parts| == 1 {
      FindNoChar(parts[0], c);
    } else {
      SplitStep(parts[0], c, JoinWith(parts[1..], c));
      SplitJoin(parts[1..], c);
      assert parts == [parts[0]] + parts[1..];
    }
  }

  /** Splitting at the first `c` of a text gives the piece before it, then
      the pieces of the rest. */
  lemma SplitStep(a: string, c: char, rest: string)
    requires c !in a
    ensures Split(a + [c] + rest, c) == [a] + Split(rest, c)
  {
    var s := a + [c] + rest;
    FindAfter(a, [c], rest);
    assert s[..|a|] == a;
    assert s[|a| + 1..] == rest;
  }

  /** Pieces that are non-empty, free of line feeds and not ending in a
      carriage return, joined by a character other than those two, make a
      line that `Lines` keeps as it is. */
  lemma {:induction false} PlainJoin(parts: seq<string>, c: char)
    requires |parts| > 0 && c != '\n' && c != '\r'
    requires forall k :: 0 <= k < |parts| ==> |parts[k]| > 0 && PlainLine(parts[k])
    ensures PlainLine(JoinWith(parts, c))
  {
    if |parts| > 1 {
      PlainJoin(parts[1..], c);
    }
  }

  // --------------------------------------------------------- split_whitespace

  /** `char::is_whitespace`: the characters with Unicode's White_Space property. */
  predicate IsSpace(c: char)
  {
    var n := c as int;
    n == 0x20 || 0x09 <= n <= 0x0D || n == 0x85 || n == 0xA0 || n == 0x1680
    || 0x2000 <= n <= 0x200A || n == 0x2028 || n == 0x2029 || n == 0x202F
    || n == 0x205F || n == 0x3000
  }

  /** The end of the run of non-space characters that starts at `i`. */
  function WordEnd(s: string, i: nat): (r: nat)
    requires i <= |s|
    decreases |s| - i
    ensures i <= r <= |s|
  {
    if i == |s| || IsSpace(s[i]) then i else WordEnd(s, i + 1)
  }

  /** `str::split_whitespace`: the maximal runs of non-space characters. */
  function Words(s: string): seq<string>
    decreases |s|
  {
    if s == [] then []
    else if IsSpace(s[0]) then Words(s[1..])
    else
      var k := WordEnd(s, 1);
      [s[..k]] + Words(s[k..])
  }

  /** The run that starts at `i` ends at `e` when `e` is the first space (or
      the end of `s`) from `i` on. */
  lemma {:induction false} WordEndAt(s: string, i: nat, e: nat)
    requires i <= e <= |s|
    requires forall j :: i <= j < e ==> !IsSpace(s[j])
    requires e == |s| || IsSpace(s[e])
    ensures WordEnd(s, i) == e
    decreases e - i
  {
    if i < e {
      WordEndAt(s, i + 1, e);
    }
  }

  /** `split_whitespace` undoes joining non-empty, space-free words with single spaces. */
  lemma {:induction false} WordsJoin(ws: seq<string>)
    requires |ws| > 0
    requires forall k :: 0 <= k < |ws| ==> |ws[k]| > 0 && forall j :: 0 <= j < |ws[k]| ==> !IsSpace(ws[k][j])
    ensures Words(JoinWith(ws, ' ')) == ws
  {
    var s := JoinWith(ws, ' ');
    var w := ws[0];
    assert !IsSpace(w[0]);
    if |ws| == 1 {
      assert s == w;
      WordEndAt(s, 1, |w|);
      assert s[..|w|] == w && s[|w|..] == [];
      assert Words(s) == [w] + Words([]);
    } else {
      var rest := JoinWith(ws[1..], ' ');
      assert s == w + [' '] + rest;
      WordEndAt(s, 1, |w|);
      assert s[..|w|] == w;
      assert s[|w|..] == [' '] + rest;
      assert s[|w|..][1..] == rest;
      WordsJoin(ws[1..]);
      assert ws == [w] + ws[1..];
    }
  }

  // ------------------------------------------------------------------ numbers

  predicate IsDigit(c: char, radix: nat)
  {
    '0' <= c <= '9' && c as int - '0' as int < radix
  }

  predicate AllDigits(s: string, radix: nat)
  {
    forall k :: 0 <= k < |s| ==> IsDigit(s[k], radix)
  }

  function DigitValue(c: char): nat
    requires '0' <= c <= '9'
  {
    c as int - '0' as int
  }

  /** The number that the digit string `s` denotes in base `radix`. */
  function ValueOf(s: string, radix: nat): nat
    requires AllDigits(s, radix)
  {
    if s == [] then 0 else ValueOf(s[..|s| - 1], radix) * radix + DigitValue(s[|s| - 1])
  }

  /** `u32::from_str_radix` (and, for radix 10, `str::parse::<u32>`): an
      optional leading '+', then at least one digit, and a value that fits in
      32 bits. */
  function ParseRadix(s: string, radix: nat): (r: Option<nat>)
    requires 2 <= radix <= 10
    ensures r.Some? ==> r.value < U32_LIMIT
  {
    var digits := if |s| > 0 && s[0] == '+' then s[1..] else s;
    if |digits| > 0 && AllDigits(digits, radix) && ValueOf(digits, radix) < U32_LIMIT
    then Some(ValueOf(digits, radix))
    else None
  }

  /** What `ParseRadix` accepts: at least one digit of the base, after an
      optional '+'. */
  lemma ParseRadixAccepts(s: string, radix: nat)
    requires 2 <= radix <= 10
    ensures ParseRadix(s, radix).Some? ==> s != [] && s != "+"
    ensures ParseRadix(s, radix).Some? ==>
      forall k :: 0 <= k < |s| ==> IsDigit(s[k], radix) || (k == 0 && s[k] == '+')
  {
  }

  /** The value `ParseRadix` reads: the digits, after an optional '+',
      denote it, leading zeros included; a value of 2^32 or more is `None`. */
  lemma ParseRadixDigits(d: string, radix: nat)
    requires 2 <= radix <= 10 && |d| > 0 && AllDigits(d, radix)
    ensures ParseRadix(d, radix) == (if ValueOf(d, radix) < U32_LIMIT then Some(ValueOf(d, radix)) else None)
    ensures ParseRadix("+" + d, radix) == ParseRadix(d, radix)
  {
    assert d[0] != '+';
    assert ("+" + d)[1..] == d;
  }

  function DigitChar(d: nat): (c: char)
    requires d < 10
    ensures '0' <= c <= '9' && DigitValue(c) == d
  {
    ('0' as int + d) as char
  }

  /** The digits of `n` in base `radix`, without leading zeros. */
  function Format(n: nat, radix: nat): (r: string)
    requires 2 <= radix <= 10
    decreases n
    ensures |r| > 0 && AllDigits(r, radix)
    ensures ValueOf(r, radix) == n
  {
    if n < radix then
      SingleDigit(n, radix);
      [DigitChar(n)]
    else
      DivSmaller(n, radix);
      var prefix := Format(n / radix, radix);
      AppendDigit(prefix, n, radix);
      prefix + [DigitChar(n % radix)]
  }

  lemma SingleDigit(n: nat, radix: nat)
    requires 2 <= radix <= 10 && n < radix
    ensures AllDigits([DigitChar(n)], radix) && ValueOf([DigitChar(n)], radix) == n
  {
    assert [DigitChar(n)][..0] == [];
  }

  lemma DivSmaller(n: nat, radix: nat)
    requires 2 <= radix && radix <= n
    ensures 0 < n / radix < n
  {
  }

  /** One more digit: the digits of `n / radix`, then that of `n % radix`. */
  lemma AppendDigit(prefix: string, n: nat, radix: nat)
    requires 2 <= radix <= 10 && AllDigits(prefix, radix) && ValueOf(prefix, radix) == n / radix
    ensures AllDigits(prefix + [DigitChar(n % radix)], radix)
    ensures ValueOf(prefix + [DigitChar(n % radix)], radix) == n
  {
    var d := DigitChar(n % radix);
    var r := prefix + [d];
    assert r[..|r| - 1] == prefix && r[|r| - 1] == d;
    assert AllDigits(r, radix);
    assert ValueOf(r, radix) == ValueOf(prefix, radix) * radix + DigitValue(d);
    assert (n / radix) * radix + n % radix == n;
  }

  /** Parsing undoes formatting for every `u32`. */
  lemma ParseFormat(n: nat, radix: nat)
    requires 2 <= radix <= 10 && n < U32_LIMIT
    ensures ParseRadix(Format(n, radix), radix) == Some(n)
  {
  }

  /** A digit string has no separator character in it. */
  lemma FormatHasNo(n: nat, radix: nat, c: char)
    requires 2 <= radix <= 10 && !('0' <= c <= '9')
    ensures c !in Format(n, radix)
    ensures PlainLine(Format(n, radix))
  {
  }

  /** Parses every piece as a decimal `u32`; `None` when one of them does not parse. */
  function ParseAll(parts: seq<string>): (r: Option<seq<nat>>)
    ensures r.Some? ==> |r.value| == |parts|
    ensures r.Some? ==> forall k :: 0 <= k < |parts| ==> ParseRadix(parts[k], 10) == Some(r.value[k])
    ensures r.None? ==> exists k :: 0 <= k < |parts| && ParseRadix(parts[k], 10).None?
  {
    if parts == [] then Some([])
    else
      match ParseRadix(parts[0], 10)
      case None => None
      case Some(n) =>
        match ParseAll(parts[1..])
        case None => None
        case Some(rest) => Some([n] + rest)
  }

  /** The pieces parse one by one to `nums`, so together they parse to `nums`. */
  lemma ParseAllOf(parts: seq<string>, nums: seq<nat>)
    requires |parts| == |nums|
    requires forall k :: 0 <= k < |parts| ==> ParseRadix(parts[k], 10) == Some(nums[k])
    ensures ParseAll(parts) == Some(nums)
  {
    var r := ParseAll(parts);
    assert r.Some?;
    assert r.value == nums;
  }

  /** Parsing one more piece appends its number. */
  lemma {:induction false} ParseAllSnoc(parts: seq<string>, nums: seq<nat>, w: string, n: nat)
    requires ParseAll(parts) == Some(nums) && ParseRadix(w, 10) == Some(n)
    ensures ParseAll(parts + [w]) == Some(nums + [n])
  {
    if parts == [] {
      assert parts + [w] == [w];
      assert [w][1..] == [];
      assert nums + [n] == [n] + [];
    } else {
      assert (parts + [w])[1..] == parts[1..] + [w];
      assert (parts + [w])[0] == parts[0];
      ParseAllSnoc(parts[1..], nums[1..], w, n);
      assert nums == [nums[0]] + nums[1..];
      assert nums + [n] == [nums[0]] + (nums[1..] + [n]);
    }
  }

  /** The same step on a prefix of `parts`. */
  lemma ParseAllPrefix(parts: seq<string>, j: nat, nums: seq<nat>, n: nat)
    requires j < |parts| && ParseAll(parts[..j]) == Some(nums) && ParseRadix(parts[j], 10) == Some(n)
    ensures ParseAll(parts[..j + 1]) == Some(nums + [n])
  {
    assert parts[..j + 1] == parts[..j] + [parts[j]];
    ParseAllSnoc(parts[..j], nums, parts[j], n);
  }

  /** One piece that does not parse spoils the whole list. */
  lemma ParseAllFails(parts: seq<string>, j: nat)
    requires j < |parts| && ParseRadix(parts[j], 10).None?
    ensures ParseAll(parts).None?
  {
  }

  /** Every number in decimal. */
  function FormatAll(nums: seq<nat>): (r: seq<string>)
    ensures |r| == |nums|
    ensures forall k :: 0 <= k < |nums| ==> r[k] == Format(nums[k], 10)
  {
    if nums == [] then [] else [Format(nums[0], 10)] + FormatAll(nums[1..])
  }

  /** Parsing the decimal texts of `u32`s gives the numbers back. */
  lemma ParseFormatAll(nums: seq<nat>)
    requires forall k :: 0 <= k < |nums| ==> nums[k] < U32_LIMIT
    ensures ParseAll(FormatAll(nums)) == Some(nums)
  {
    var ps := FormatAll(nums);
    forall k | 0 <= k < |nums| ensures ParseRadix(ps[k], 10) == Some(nums[k]) {
      ParseFormat(nums[k], 10);
    }
    var r := ParseAll(ps);
    assert r.Some?;
    assert r.value == nums;
  }

  /** A number written with at most `w` binary digits is below 2^w. */
  lemma {:induction false} BinaryBound(s: string)
    requires AllDigits(s, 2)
    ensures ValueOf(s, 2) < Pow2(|s|)
  {
    if s != [] {
      BinaryBound(s[..|s| - 1]);
    }
  }

  function Pow2(k: nat): (r: nat)
    ensures r >= 1
  {
    if k == 0 then 1 else 2 * Pow2(k - 1)
  }
}
