/**
 * The JavaScript and browser primitives the gallery code relies on, stated
 * once: the truncating `%`, the `\s` character class of regular expressions,
 * ASCII case folding of the `i` flag, `indexOf`, string truthiness, and the way
 * `location.hash` reads back what was written to it.
 */
module Web {
  import opened Wrappers

  function Abs(n: int): nat {
    if n < 0 then -n else n
  }

  /** JavaScript's `a % b` on integers: truncating division, so the remainder has the sign of `a`. */
  function JsRemainder(a: int, b: int): (r: int)
    requires b > 0
    ensures -b < r < b
    ensures a >= 0 ==> r == a % b
    ensures a < 0 ==> r <= 0
  {
    if a >= 0 then a % b else -((-a) % b)
  }

  /** The characters matched by `\s` in a JavaScript regular expression. */
  predicate IsJsWhitespace(c: char) {
    || c == '\t' || c == '\n' || c == '\U{000B}' || c == '\U{000C}' || c == '\r'
    || c == ' ' || c == '\U{00A0}' || c == '\U{1680}'
    || ('\U{2000}' <= c <= '\U{200A}')
    || c == '\U{2028}' || c == '\U{2029}' || c == '\U{202F}' || c == '\U{205F}'
    || c == '\U{3000}' || c == '\U{FEFF}'
  }

  predicate NoWhitespace(s: string) {
    forall i :: 0 <= i < |s| ==> !IsJsWhitespace(s[i])
  }

  /** Canonical case of one character under the `i` flag, restricted to ASCII letters. */
  function AsciiUpper(c: char): char {
    if 'a' <= c <= 'z' then (c as int - 32) as char else c
  }

  function AsciiUpperString(s: string): (u: string)
    ensures |u| == |s|
    ensures forall i :: 0 <= i < |s| ==> u[i] == AsciiUpper(s[i])
  {
    if s == [] then [] else [AsciiUpper(s[0])] + AsciiUpperString(s[1..])
  }

  /** `s` and `t` are equal when ASCII letters are compared without regard to case. */
  predicate EqualsIgnoringAsciiCase(s: string, t: string) {
    |s| == |t| && forall i :: 0 <= i < |s| ==> AsciiUpper(s[i]) == AsciiUpper(t[i])
  }

  /** Case-insensitive equality is equality of the upper-case forms. */
  lemma EqualsIgnoringCaseIffUpper(s: string, t: string)
    ensures EqualsIgnoringAsciiCase(s, t) <==> AsciiUpperString(s) == AsciiUpperString(t)
  {
    if AsciiUpperString(s) == AsciiUpperString(t) {
      forall i | 0 <= i < |s|
        ensures AsciiUpper(s[i]) == AsciiUpper(t[i])
      {
        assert AsciiUpperString(s)[i] == AsciiUpperString(t)[i];
      }
    }
  }

  predicate OccursAt(s: string, sub: string, i: int) {
    0 <= i && i + |sub| <= |s| && s[i..i + |sub|] == sub
  }

  /** Two pieces that occur one right after the other occur together. */
  lemma OccursConcat(s: string, a: string, b: string, i: int)
    requires OccursAt(s, a, i) && OccursAt(s, b, i + |a|)
    ensures OccursAt(s, a + b, i)
  {
    assert s[i..i + |a| + |b|] == s[i..i + |a|] + s[i + |a|..i + |a| + |b|];
  }

  /** `s.indexOf(sub, from)`: the first position at or after `from` where `sub` occurs, or -1. */
  function IndexOfFrom(s: string, sub: string, from: nat): (k: int)
    requires from <= |s|
    ensures k == -1 || (from <= k && OccursAt(s, sub, k))
    ensures k == -1 ==> forall i :: from <= i <= |s| ==> !OccursAt(s, sub, i)
    ensures k != -1 ==> forall i :: from <= i < k ==> !OccursAt(s, sub, i)
    decreases |s| - from
  {
    if OccursAt(s, sub, from) then from
    else if from == |s| then -1
    else IndexOfFrom(s, sub, from + 1)
  }

  function IndexOf(s: string, sub: string): int {
    IndexOfFrom(s, sub, 0)
  }

  /** `s.indexOf(sub) !== -1`. */
  predicate Contains(s: string, sub: string) {
    IndexOf(s, sub) != -1
  }

  /** `sub` is contained exactly when it occurs somewhere in `s`. */
  lemma ContainsIff(s: string, sub: string)
    ensures Contains(s, sub) <==> exists i :: OccursAt(s, sub, i)
  {
  }

  /** JavaScript truthiness of an optional string argument: absent and empty are both falsy. */
  predicate Truthy(s: Option<string>) {
    s.Some? && s.value != ""
  }

  /**
   * Characters the URL parser keeps as they are in a fragment: printable
   * ASCII other than `"`, `<`, `>` and the backtick (the fragment
   * percent-encode set of the WHATWG URL standard, section 1.3).
   */
  predicate FragmentSafe(c: char) {
    '!' <= c <= '~' && c != '"' && c != '<' && c != '>' && c != '`'
  }

  predicate SafeFragment(s: string) {
    forall i :: 0 <= i < |s| ==> FragmentSafe(s[i])
  }

  /** The UTF-8 encoding of one character. */
  function Utf8(c: char): (bytes: seq<nat>)
    ensures 1 <= |bytes| <= 4
    ensures forall i :: 0 <= i < |bytes| ==> bytes[i] < 256
    ensures c as int < 0x80 ==> bytes == [c as int]
  {
    var n := c as int;
    if n < 0x80 then [n]
    else if n < 0x800 then [0xC0 + n / 64, 0x80 + n % 64]
    else if n < 0x10000 then [0xE0 + n / 4096, 0x80 + (n / 64) % 64, 0x80 + n % 64]
    else [0xF0 + n / 262144, 0x80 + (n / 4096) % 64, 0x80 + (n / 64) % 64, 0x80 + n % 64]
  }

  function HexDigit(d: nat): (c: char)
    requires d < 16
    ensures FragmentSafe(c)
  {
    if d < 10 then ('0' as int + d) as char else ('A' as int + d - 10) as char
  }

  /** Each byte written as `%` and two upper-case hexadecimal digits. */
  function PercentEncode(bytes: seq<nat>): (e: string)
    requires forall i :: 0 <= i < |bytes| ==> bytes[i] < 256
    ensures |e| == 3 * |bytes| && SafeFragment(e)
  {
    if bytes == [] then []
    else ['%', HexDigit(bytes[0] / 16), HexDigit(bytes[0] % 16)] + PercentEncode(bytes[1..])
  }

  /** How one character of a fragment is stored: tab, LF and CR are dropped, unsafe characters percent-encoded. */
  function EncodeFragmentChar(c: char): (e: string)
    ensures SafeFragment(e)
    ensures FragmentSafe(c) <==> e == [c]
  {
    if c == '\t' || c == '\n' || c == '\r' then ""
    else if FragmentSafe(c) then [c]
    else PercentEncode(Utf8(c))
  }

  /** The fragment the URL parser stores for `s`. */
  function EncodeFragment(s: string): (e: string)
    ensures SafeFragment(e)
  {
    if s == [] then [] else EncodeFragmentChar(s[0]) + EncodeFragment(s[1..])
  }

  /** Safe text is stored unchanged. */
  lemma {:induction false} SafeIsStoredUnchanged(s: string)
    ensures SafeFragment(s) ==> EncodeFragment(s) == s
  {
    if s != [] && SafeFragment(s) {
      assert FragmentSafe(s[0]);
      SafeIsStoredUnchanged(s[1..]);
    }
  }

  /** Encoding works character by character, so it distributes over concatenation. */
  lemma {:induction false} EncodeAppend(a: string, b: string)
    ensures EncodeFragment(a + b) == EncodeFragment(a) + EncodeFragment(b)
    decreases |a|
  {
    if a == [] {
      assert a + b == b;
    } else {
      var head := EncodeFragmentChar(a[0]);
      assert (a + b)[0] == a[0] && (a + b)[1..] == a[1..] + b;
      assert EncodeFragment(a + b) == head + EncodeFragment(a[1..] + b);
      EncodeAppend(a[1..], b);
      assert head + (EncodeFragment(a[1..]) + EncodeFragment(b)) == (head + EncodeFragment(a[1..])) + EncodeFragment(b);
    }
  }

  /** Encoded text never holds whitespace: every character left is printable ASCII. */
  lemma SafeHasNoWhitespace(s: string)
    requires SafeFragment(s)
    ensures NoWhitespace(s)
  {
    forall i | 0 <= i < |s|
      ensures !IsJsWhitespace(s[i])
    {
      assert FragmentSafe(s[i]);
    }
  }

  /** The fragment a written hash stands for: the text without one leading '#'. */
  function FragmentOf(written: string): string {
    if |written| > 0 && written[0] == '#' then written[1..] else written
  }

  lemma FragmentOfMarked(raw: string)
    ensures FragmentOf("#" + raw) == raw
  {
    assert ("#" + raw)[1..] == raw;
  }

  /**
   * What `location.hash` reads after `location.hash = written`: one leading
   * '#' is dropped from the written text, the rest is stored as an encoded
   * fragment, and a non-empty fragment reads back with a '#' in front of it.
   */
  function HashAfterAssigning(written: string): (h: string)
    ensures h == "" || (|h| > 1 && h[0] == '#' && SafeFragment(h[1..]))
    ensures |written| > 1 && written[0] == '#' && SafeFragment(written[1..]) ==> h == written
    ensures |written| > 0 && written[0] != '#' && SafeFragment(written) ==> h == "#" + written
    ensures written == "" ==> h == ""
  {
    SafeIsStoredUnchanged(FragmentOf(written));
    var fragment := EncodeFragment(FragmentOf(written));
    if fragment == "" then "" else "#" + fragment
  }

  /**
   * Writing '#', a safe prefix and any text reads back as it was written,
   * except that the text is encoded.
   */
  lemma {:induction false} HashOfMarkedPrefix(prefix: string, s: string)
    requires |prefix| > 0 && prefix[0] != '#' && SafeFragment(prefix)
    ensures HashAfterAssigning("#" + prefix + s) == "#" + prefix + EncodeFragment(s)
  {
    var raw := prefix + s;
    assert FragmentOf("#" + prefix + s) == raw by {
      assert "#" + prefix + s == "#" + raw;
      FragmentOfMarked(raw);
    }
    PrefixStaysAsItIs(prefix, s);
    assert "#" + (prefix + EncodeFragment(s)) == "#" + prefix + EncodeFragment(s);
  }

  /** Writing a safe prefix and any text without the '#' reads back with a '#' put in front. */
  lemma {:induction false} HashOfBarePrefix(prefix: string, s: string)
    requires |prefix| > 0 && prefix[0] != '#' && SafeFragment(prefix)
    ensures HashAfterAssigning(prefix + s) == "#" + prefix + EncodeFragment(s)
  {
    assert FragmentOf(prefix + s) == prefix + s by {
      assert (prefix + s)[0] == prefix[0];
    }
    PrefixStaysAsItIs(prefix, s);
    assert "#" + (prefix + EncodeFragment(s)) == "#" + prefix + EncodeFragment(s);
  }

  /** A safe prefix is stored as it is, ahead of the encoded rest. */
  lemma PrefixStaysAsItIs(prefix: string, s: string)
    requires SafeFragment(prefix)
    ensures EncodeFragment(prefix + s) == prefix + EncodeFragment(s)
  {
    SafeIsStoredUnchanged(prefix);
    EncodeAppend(prefix, s);
  }

  /** Reading the hash and writing it back leaves it as it was. */
  lemma HashReadBackIsStable(written: string)
    ensures HashAfterAssigning(HashAfterAssigning(written)) == HashAfterAssigning(written)
  {
  }

  /** A double quote between two safe characters reads back as `%22`. */
  lemma QuoteReadsBackEncoded(a: char, b: char)
    requires FragmentSafe(a) && FragmentSafe(b)
    ensures HashAfterAssigning("#" + "photo/" + [a, '"', b]) == "#" + "photo/" + ([a] + "%22" + [b])
  {
    HashOfMarkedPrefix("photo/", [a, '"', b]);
    QuoteIsEncoded(a, b);
  }

  lemma QuoteIsEncoded(a: char, b: char)
    requires FragmentSafe(a) && FragmentSafe(b)
    ensures EncodeFragment([a, '"', b]) == [a] + "%22" + [b]
  {
    assert [a, '"', b] == [a] + ([ '"'] + [b]);
    EncodeAppend([a], ['"'] + [b]);
    EncodeAppend(['"'], [b]);
    EncodeOne(a);
    EncodeOne('"');
    EncodeOne(b);
    QuoteCharIsEncoded();
  }

  lemma EncodeOne(c: char)
    ensures EncodeFragment([c]) == EncodeFragmentChar(c)
  {
    assert [c][1..] == [];
  }

  lemma QuoteCharIsEncoded()
    ensures EncodeFragmentChar('"') == "%22"
  {
    assert Utf8('"') == [34];
    assert PercentEncode([34]) == ['%', HexDigit(2), HexDigit(2)] + PercentEncode([]);
  }
}
