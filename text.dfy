/**
  The JavaScript string operations the core relies on, over `seq<char>`:
  `indexOf`, `includes`, `startsWith`, `replace` with a string pattern,
  `toLowerCase` (ASCII letters), `String(n)` for integers, `split` at a
  separator, and `Buffer.toString("hex")`.
*/
module Text {
  import opened Wrappers

  type byte = b: int | 0 <= b < 256

  /** `p` occurs in `s` starting at position `i`. */
  predicate OccursAt(s: string, p: string, i: nat)
    requires i <= |s|
  {
    p <= s[i..]
  }

  /** `s.indexOf(p, from)`: the first position at or after `from` where `p` occurs. */
  function IndexFrom(s: string, p: string, from: nat): (r: Option<nat>)
    requires from <= |s|
    ensures r.Some? ==> from <= r.value <= |s| && OccursAt(s, p, r.value)
    ensures forall j :: from <= j <= |s| && (r.Some? ==> j < r.value) ==> !OccursAt(s, p, j)
    decreases |s| - from
  {
    if OccursAt(s, p, from) then Some(from)
    else if from == |s| then None
    else IndexFrom(s, p, from + 1)
  }

  /** `s.indexOf(p)` */
  function IndexOf(s: string, p: string): Option<nat>
  {
    IndexFrom(s, p, 0)
  }

  /** `s.includes(p)` */
  predicate Includes(s: string, p: string)
  {
    IndexOf(s, p).Some?
  }

  /** `s.startsWith(p)` */
  predicate StartsWith(s: string, p: string)
  {
    p <= s
  }

  /** Whatever `p` starts with occurs in every string that includes `p`. */
  lemma IncludesFirstChar(s: string, p: string)
    requires p != [] && Includes(s, p)
    ensures p[0] in s
  {
    var i := IndexOf(s, p).value;
    assert s[i..][0] == p[0];
  }

  /** When `p` begins with a character that `u` lacks, the first occurrence of `p` in `u + p + w` is right after `u`. */
  lemma {:induction false} FirstOccurrenceAfter(u: string, p: string, w: string)
    requires p != [] && p[0] !in u
    ensures IndexOf(u + p + w, p) == Some(|u|)
  {
    var s := u + p + w;
    assert OccursAt(s, p, |u|) by { assert s[|u|..] == p + w; }
    var r := IndexOf(s, p);
    forall j | 0 <= j < |u|
      ensures !OccursAt(s, p, j)
    {
      assert s[j..][0] == u[j];
    }
  }

  /**
    The text `s.replace(p, rep)` inserts for the match when `p` is a string:
    `$$`, `$&`, `` $` `` and `$'` stand for `$`, the match, the text before it
    and the text after it; with no capture groups every other `$` is literal.
  */
  function Substitution(rep: string, matched: string, before: string, after: string): string
    decreases |rep|
  {
    if |rep| >= 2 && rep[0] == '$' && rep[1] == '$' then "$" + Substitution(rep[2..], matched, before, after)
    else if |rep| >= 2 && rep[0] == '$' && rep[1] == '&' then matched + Substitution(rep[2..], matched, before, after)
    else if |rep| >= 2 && rep[0] == '$' && rep[1] == '`' then before + Substitution(rep[2..], matched, before, after)
    else if |rep| >= 2 && rep[0] == '$' && rep[1] == '\'' then after + Substitution(rep[2..], matched, before, after)
    else if rep == [] then []
    else [rep[0]] + Substitution(rep[1..], matched, before, after)
  }

  /** A replacement without `$` is inserted verbatim. */
  lemma {:induction false} SubstitutionVerbatim(rep: string, matched: string, before: string, after: string)
    requires '$' !in rep
    ensures Substitution(rep, matched, before, after) == rep
  {
    if rep != [] {
      SubstitutionVerbatim(rep[1..], matched, before, after);
      assert rep == [rep[0]] + rep[1..];
    }
  }

  /** `s.replace(p, rep)` with a string pattern: only the first occurrence of `p` is replaced. */
  function ReplaceFirst(s: string, p: string, rep: string): string
  {
    match IndexOf(s, p)
    case None => s
    case Some(i) => s[..i] + Substitution(rep, p, s[..i], s[i + |p|..]) + s[i + |p|..]
  }

  /**
    Replacing with a `$`-free text: `s` is unchanged when it lacks `p`, and otherwise
    the first occurrence, and only it, is exchanged for `rep`.
  */
  lemma ReplaceFirstVerbatim(s: string, p: string, rep: string)
    requires '$' !in rep
    ensures !Includes(s, p) ==> ReplaceFirst(s, p, rep) == s
    ensures Includes(s, p) ==>
      var i := IndexOf(s, p).value;
      && i + |p| <= |s| && s[i..i + |p|] == p
      && (forall j :: 0 <= j < i ==> !OccursAt(s, p, j))
      && ReplaceFirst(s, p, rep) == s[..i] + rep + s[i + |p|..]
  {
    if Includes(s, p) {
      var i := IndexOf(s, p).value;
      SubstitutionVerbatim(rep, p, s[..i], s[i + |p|..]);
    }
  }

  function LowerChar(c: char): char
  {
    if 'A' <= c <= 'Z' then (c as int - 'A' as int + 'a' as int) as char else c
  }

  /** `s.toLowerCase()`, for the ASCII letters. */
  function ToLower(s: string): (r: string)
    ensures |r| == |s|
    ensures forall i :: 0 <= i < |s| ==> r[i] == LowerChar(s[i])
  {
    if s == [] then [] else [LowerChar(s[0])] + ToLower(s[1..])
  }

  /** Lower-casing twice is lower-casing once. */
  lemma ToLowerIdempotent(s: string)
    ensures ToLower(ToLower(s)) == ToLower(s)
  {
    assert forall i :: 0 <= i < |s| ==> LowerChar(LowerChar(s[i])) == LowerChar(s[i]);
  }

  function DigitChar(d: int): char
    requires 0 <= d < 10
  {
    "0123456789"[d]
  }

  /** The decimal digits of `n`, most significant first, without leading zeros. */
  function Digits(n: nat): (r: string)
    ensures |r| >= 1
    ensures forall c :: c in r ==> '0' <= c <= '9'
    ensures r[0] == '0' <==> n == 0
    ensures n == 0 ==> r == "0"
    decreases n
  {
    if n < 10 then [DigitChar(n)] else Digits(n / 10) + [DigitChar(n % 10)]
  }

  /** The number a string of decimal digits denotes. */
  function DigitsValue(s: string): int
  {
    if s == [] then 0 else 10 * DigitsValue(s[..|s| - 1]) + (s[|s| - 1] as int - '0' as int)
  }

  /** Reading the digits back gives the number. */
  lemma {:induction false} DigitsRoundTrip(n: nat)
    ensures DigitsValue(Digits(n)) == n
    decreases n
  {
    var r := Digits(n);
    if n < 10 {
      assert r[..|r| - 1] == [];
    } else {
      DigitsRoundTrip(n / 10);
      assert r[..|r| - 1] == Digits(n / 10);
    }
  }

  /** `String(n)` for an integer-valued number. */
  function NumberToString(n: int): (r: string)
    ensures |r| >= 1
    ensures forall c :: c in r ==> c == '-' || '0' <= c <= '9'
    ensures n >= 0 ==> DigitsValue(r) == n
    ensures n < 0 ==> r[0] == '-' && DigitsValue(r[1..]) == -n
    ensures n >= 0 ==> forall c :: c in r ==> '0' <= c <= '9'
    ensures n < 0 ==> forall c :: c in r[1..] ==> '0' <= c <= '9'
    ensures n >= 0 && r[0] == '0' ==> r == "0"
    ensures n < 0 ==> |r| >= 2 && r[1] != '0'
  {
    if n < 0 then
      DigitsRoundTrip(-n);
      assert ("-" + Digits(-n))[1..] == Digits(-n);
      "-" + Digits(-n)
    else
      DigitsRoundTrip(n);
      Digits(n)
  }

  /** `s.split(sep)[0]`: the part of `s` before the first `sep`, or all of `s`. */
  function BeforeFirst(s: string, sep: char): (r: string)
    ensures r <= s
    ensures sep !in r
    ensures |r| < |s| ==> s[|r|] == sep
  {
    if s == [] || s[0] == sep then [] else [s[0]] + BeforeFirst(s[1..], sep)
  }

  /** Everything after the first `sep` (empty when there is none). */
  function AfterFirst(s: string, sep: char): (r: string)
    ensures |BeforeFirst(s, sep)| < |s| ==> r == s[|BeforeFirst(s, sep)| + 1..]
  {
    var head := BeforeFirst(s, sep);
    if |head| < |s| then s[|head| + 1..] else []
  }

  /** Joining two parts at `sep`, the first of them free of `sep`, splits back into the two parts. */
  lemma {:induction false} SplitJoin(a: string, sep: char, b: string)
    requires sep !in a
    ensures BeforeFirst(a + [sep] + b, sep) == a
    ensures AfterFirst(a + [sep] + b, sep) == b
  {
    if a != [] {
      SplitJoin(a[1..], sep, b);
      assert (a + [sep] + b)[1..] == a[1..] + [sep] + b;
    }
  }

  const HexAlphabet: string := "0123456789abcdef"

  /** `buffer.toString("hex")`: two lower-case hexadecimal digits per byte. */
  function Hex(bytes: seq<byte>): (r: string)
    ensures |r| == 2 * |bytes|
    ensures forall c :: c in r ==> c in HexAlphabet
  {
    if bytes == [] then [] else [HexAlphabet[bytes[0] / 16], HexAlphabet[bytes[0] % 16]] + Hex(bytes[1..])
  }
}
