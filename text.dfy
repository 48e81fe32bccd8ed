/**
 * String helpers the pipeline relies on, as Python defines them:
 * str.lower (on ASCII letters), the whitespace set of str.split(),
 * str.endswith, os.path.splitext and decimal formatting of a counter.
 */
module Text {

  /** An ASCII capital letter: the characters str.lower changes in this model. */
  predicate IsUpper(c: char) { 'A' <= c <= 'Z' }

  /** One character of str.lower. */
  function LowerChar(c: char): (r: char)
    ensures !IsUpper(r)
    ensures r == c || IsUpper(c)
  {
    if IsUpper(c) then (c as int + 32) as char else c
  }

  /** str.lower: every capital letter replaced by its small letter, nothing else changed. */
  function Lower(s: string): (r: string)
    ensures |r| == |s|
    ensures forall i :: 0 <= i < |s| ==> r[i] == LowerChar(s[i])
  {
    seq(|s|, i requires 0 <= i < |s| => LowerChar(s[i]))
  }

  /** The characters str.split() with no argument splits on (str.isspace). */
  predicate IsWhitespace(c: char) {
    || ('\t' <= c <= '\r')
    || ('\U{1C}' <= c <= '\U{1F}')
    || c == ' '
    || c == '\U{85}'
    || c == '\U{A0}'
    || c == '\U{1680}'
    || ('\U{2000}' <= c <= '\U{200A}')
    || c == '\U{2028}'
    || c == '\U{2029}'
    || c == '\U{202F}'
    || c == '\U{205F}'
    || c == '\U{3000}'
  }

  /** ''.join(s.split()): s with every whitespace character deleted. */
  function RemoveWhitespace(s: string): (r: string)
    ensures |r| <= |s|
    ensures forall i :: 0 <= i < |r| ==> !IsWhitespace(r[i])
    ensures forall c :: c in r ==> c in s
  {
    if s == [] then []
    else (if IsWhitespace(s[0]) then [] else [s[0]]) + RemoveWhitespace(s[1..])
  }

  lemma {:induction false} RemoveWhitespaceAppend(a: string, b: string)
    ensures RemoveWhitespace(a + b) == RemoveWhitespace(a) + RemoveWhitespace(b)
  {
    if a == [] {
      assert a + b == b;
    } else {
      assert (a + b)[0] == a[0];
      assert (a + b)[1..] == a[1..] + b;
      RemoveWhitespaceAppend(a[1..], b);
    }
  }

  /** A string with no whitespace is left as it is. */
  lemma {:induction false} RemoveWhitespaceOfClean(s: string)
    requires forall i :: 0 <= i < |s| ==> !IsWhitespace(s[i])
    ensures RemoveWhitespace(s) == s
  {
    if s != [] {
      RemoveWhitespaceOfClean(s[1..]);
    }
  }

  /** str.endswith. */
  predicate EndsWith(s: string, suffix: string) {
    |suffix| <= |s| && s[|s| - |suffix|..] == suffix
  }

  /** name.lower().endswith(ext). */
  predicate HasExtension(name: string, ext: string) {
    EndsWith(Lower(name), ext)
  }

  predicate IsPdfName(name: string) { HasExtension(name, ".pdf") }

  predicate IsTxtName(name: string) { HasExtension(name, ".txt") }

  /** No name occurs twice: what os.listdir returns. */
  predicate NoDup(s: seq<string>) {
    forall i, j :: 0 <= i < j < |s| ==> s[i] != s[j]
  }

  /** One more loop step extends the prefix a loop has gone through by exactly one element. */
  lemma PrefixStep<T>(s: seq<T>, i: nat)
    requires i < |s|
    ensures s[..i + 1][..i] == s[..i] && s[..i + 1][i] == s[i]
  {
  }

  /** [f for f in names if f.lower().endswith(ext)]: the order kept, nothing repeated that was not repeated. */
  function Select(names: seq<string>, ext: string): (r: seq<string>)
    ensures forall n :: n in r <==> n in names && HasExtension(n, ext)
    ensures |r| <= |names|
    ensures NoDup(names) ==> NoDup(r)
  {
    if names == [] then []
    else (if HasExtension(names[0], ext) then [names[0]] else []) + Select(names[1..], ext)
  }

  /** Index of the last '.' in s, or -1 when there is none. */
  function LastDot(s: string): (r: int)
    ensures -1 <= r < |s|
    ensures r >= 0 ==> s[r] == '.'
    ensures forall j :: r < j < |s| ==> s[j] != '.'
  {
    if s == [] then -1
    else if s[|s| - 1] == '.' then |s| - 1
    else LastDot(s[..|s| - 1])
  }

  predicate AllDots(s: string) {
    forall i :: 0 <= i < |s| ==> s[i] == '.'
  }

  /**
   * os.path.splitext(s)[0]: s cut before its last dot, unless only dots
   * come before that dot (a leading-dot name such as ".pdf" is not split).
   */
  function Stem(s: string): (r: string)
    ensures |r| <= |s| && r == s[..|r|]
    ensures r != s ==> s[|r|] == '.' && !AllDots(r)
    ensures r != s ==> forall j :: |r| < j < |s| ==> s[j] != '.'
  {
    var d := LastDot(s);
    if d > 0 && !AllDots(s[..d]) then s[..d] else s
  }

  /** The name the text of PDF f is saved under: splitext(f)[0] + ".txt". */
  function TxtName(pdf: string): string { Stem(pdf) + ".txt" }

  /** The PDF name a text file is matched with: splitext(f)[0] + ".pdf", always in lower case. */
  function PdfName(txt: string): string { Stem(txt) + ".pdf" }

  /** Splitting base + ext, where ext is a dot and dot-free letters, gives back base when base is not all dots. */
  lemma StemOfExtended(base: string, ext: string)
    requires |ext| >= 1 && ext[0] == '.'
    requires forall j :: 1 <= j < |ext| ==> ext[j] != '.'
    requires !AllDots(base)
    ensures Stem(base + ext) == base
  {
    var s := base + ext;
    var d := LastDot(s);
    assert s[|base|] == '.';
    assert forall j :: |base| < j < |s| ==> s[j] == ext[j - |base|];
    assert s[..d] == base;
  }

  lemma LowerAppend(a: string, b: string)
    ensures Lower(a + b) == Lower(a) + Lower(b)
  {
  }

  /** Every text name made from a PDF name is picked up as a .txt name by the later stages. */
  lemma TxtNameIsTxt(pdf: string)
    ensures IsTxtName(TxtName(pdf))
  {
    LowerAppend(Stem(pdf), ".txt");
    assert Lower(".txt") == ".txt";
  }

  /**
   * The text-to-PDF name mapping undoes the PDF-to-text mapping for a name
   * that ends in lower-case ".pdf" and has a character other than a dot
   * before it.
   */
  lemma {:induction false} PdfTxtRoundTrip(base: string)
    requires !AllDots(base)
    ensures TxtName(base + ".pdf") == base + ".txt"
    ensures PdfName(TxtName(base + ".pdf")) == base + ".pdf"
  {
    StemOfExtended(base, ".pdf");
    StemOfExtended(base, ".txt");
  }

  function DigitChar(d: nat): (c: char)
    requires d < 10
    ensures '0' <= c <= '9'
  {
    ('0' as int + d) as char
  }

  /** str(n) for a natural number: decimal digits, no leading zero. */
  function NatToString(n: nat): (s: string)
    ensures |s| >= 1
    ensures n >= 10 ==> |s| >= 2
    ensures forall i :: 0 <= i < |s| ==> '0' <= s[i] <= '9'
    ensures n >= 1 ==> s[0] != '0'
    decreases n
  {
    if n < 10 then [DigitChar(n)] else NatToString(n / 10) + [DigitChar(n % 10)]
  }

  /** Different counters print differently. */
  lemma {:induction false} NatToStringInjective(m: nat, n: nat)
    requires NatToString(m) == NatToString(n)
    ensures m == n
    decreases m
  {
    var sm, sn := NatToString(m), NatToString(n);
    if m >= 10 && n >= 10 {
      assert sm[|sm| - 1] == DigitChar(m % 10) && sn[|sn| - 1] == DigitChar(n % 10);
      assert sm[..|sm| - 1] == NatToString(m / 10);
      assert sn[..|sn| - 1] == NatToString(n / 10);
      NatToStringInjective(m / 10, n / 10);
    }
  }
}
