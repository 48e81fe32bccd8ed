/**
 * sha256_hash: the content fingerprint that decides every duplicate.
 * The text is lower-cased and every whitespace character is deleted; the
 * digest of that normal form is the fingerprint.  SHA-256 itself is not
 * modelled: the fingerprint is the normal form, which (like a collision-free
 * digest) is equal for two texts exactly when their normal forms are.
 */
module Fingerprint {
  import opened Text

  /** ''.join(text.lower().split()). */
  function Normalize(text: string): (r: string)
    ensures forall i :: 0 <= i < |r| ==> !IsWhitespace(r[i]) && !IsUpper(r[i])
  {
    var low := Lower(text);
    var r := RemoveWhitespace(low);
    assert forall i :: 0 <= i < |r| ==> r[i] in low;
    r
  }

  /** sha256_hash(text), with the digest modelled as the normal form itself. */
  function ContentHash(text: string): string {
    Normalize(text)
  }

  /** Lower-casing a text first does not change its fingerprint. */
  lemma HashIgnoresCase(text: string)
    ensures ContentHash(Lower(text)) == ContentHash(text)
  {
    assert Lower(Lower(text)) == Lower(text);
  }

  /** Changing the case of one letter does not change the fingerprint. */
  lemma HashIgnoresLetterCase(a: string, c: char, b: string)
    ensures ContentHash(a + [c] + b) == ContentHash(a + [LowerChar(c)] + b)
  {
    assert Lower(a + [c] + b) == Lower(a + [LowerChar(c)] + b);
  }

  /** Inserting one whitespace character anywhere does not change the fingerprint. */
  lemma HashIgnoresWhitespace(a: string, w: char, b: string)
    requires IsWhitespace(w)
    ensures ContentHash(a + [w] + b) == ContentHash(a + b)
  {
    assert Lower(a + [w] + b) == Lower(a) + [w] + Lower(b);
    assert Lower(a + b) == Lower(a) + Lower(b);
    RemoveWhitespaceAppend(Lower(a) + [w], Lower(b));
    RemoveWhitespaceAppend(Lower(a), [w]);
    RemoveWhitespaceAppend(Lower(a), Lower(b));
    assert RemoveWhitespace([w]) == [];
  }

  /** A text is its own normal form exactly when it has no whitespace and no capital letter. */
  lemma NormalFormIff(text: string)
    ensures Normalize(text) == text <==>
      forall i :: 0 <= i < |text| ==> !IsWhitespace(text[i]) && !IsUpper(text[i])
  {
    if forall i :: 0 <= i < |text| ==> !IsWhitespace(text[i]) && !IsUpper(text[i]) {
      assert Lower(text) == text;
      RemoveWhitespaceOfClean(text);
    }
  }

  /** Normalising twice is normalising once, so the fingerprint of a normal form is that form. */
  lemma NormalizeIdempotent(text: string)
    ensures Normalize(Normalize(text)) == Normalize(text)
    ensures ContentHash(ContentHash(text)) == ContentHash(text)
  {
    NormalFormIff(Normalize(text));
  }

  /** Two invoice texts differing only in case and spacing, "Invoice  #123" and "invoice#123", share a fingerprint. */
  lemma InvoiceNumberExample()
    ensures ContentHash("Invoice  #123") == ContentHash("invoice#123")
  {
    var a, b, c := "Invoice", "#123", "nvoice#123";
    HashIgnoresWhitespace(a, ' ', [' '] + b);
    HashIgnoresWhitespace(a, ' ', b);
    HashIgnoresLetterCase([], 'I', c);
    assert a + [' '] + ([' '] + b) == "Invoice  #123";
    assert a + ([' '] + b) == a + [' '] + b == "Invoice #123";
    assert a + b == [] + ['I'] + c == "Invoice#123";
    assert [] + [LowerChar('I')] + c == "invoice#123";
  }
}
