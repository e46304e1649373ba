/**
 * `remove_invisible_chars`: delete every character of a fixed class of
 * control, formatting and invisible code points from a description.
 */
module Invisible {

  /**
   * The character class of the pattern: C0 controls except LF and CR (tab
   * included), DEL and the C1 controls, soft hyphen, Arabic number signs
   * U+0600-U+0604, Syriac abbreviation mark, Khmer inherent vowels, zero-width
   * and bidi marks, U+2028-U+202F, U+2060-U+206F, the byte order mark and the
   * interlinear annotation and object replacement characters U+FFF9-U+FFFC.
   */
  predicate IsInvisible(c: char)
  {
    var n := c as int;
    || 0x0000 <= n <= 0x0008
    || 0x000B <= n <= 0x000C
    || 0x000E <= n <= 0x001F
    || 0x007F <= n <= 0x009F
    || n == 0x00AD
    || 0x0600 <= n <= 0x0604
    || n == 0x070F
    || n == 0x17B4 || n == 0x17B5
    || 0x200B <= n <= 0x200F
    || 0x2028 <= n <= 0x202F
    || 0x2060 <= n <= 0x206F
    || n == 0xFEFF
    || 0xFFF9 <= n <= 0xFFFC
    || c == '\t'
  }

  /** `re.sub(pattern, '', text)` with the class above. */
  function RemoveInvisibleChars(text: string): (r: string)
    ensures |r| <= |text|
    ensures forall i :: 0 <= i < |r| ==> !IsInvisible(r[i])
    ensures forall c :: c in r ==> c in text
  {
    if text == [] then []
    else (if IsInvisible(text[0]) then [] else [text[0]]) + RemoveInvisibleChars(text[1..])
  }

  /** The filter works character by character: it distributes over concatenation. */
  lemma {:induction false} RemoveDistributes(a: string, b: string)
    ensures RemoveInvisibleChars(a + b) == RemoveInvisibleChars(a) + RemoveInvisibleChars(b)
    decreases |a|
  {
    if a != [] {
      assert (a + b)[0] == a[0];
      assert (a + b)[1..] == a[1..] + b;
      RemoveDistributes(a[1..], b);
    } else {
      assert a + b == b;
    }
  }

  /** Text without any character of the class comes back unchanged, so nothing else is ever deleted. */
  lemma {:induction false} RemoveKeepsVisible(text: string)
    requires forall i :: 0 <= i < |text| ==> !IsInvisible(text[i])
    ensures RemoveInvisibleChars(text) == text
    decreases |text|
  {
    if text != [] {
      RemoveKeepsVisible(text[1..]);
    }
  }

  /** Removing twice is removing once. */
  lemma RemoveIdempotent(text: string)
    ensures RemoveInvisibleChars(RemoveInvisibleChars(text)) == RemoveInvisibleChars(text)
  {
    RemoveKeepsVisible(RemoveInvisibleChars(text));
  }

  /**
   * Every character outside the class survives as often as it occurs, and no
   * character of the class survives: the result is the input with exactly the
   * listed characters deleted, in the original order.
   */
  lemma {:induction false} RemoveCounts(text: string, c: char)
    ensures multiset(RemoveInvisibleChars(text))[c] == if IsInvisible(c) then 0 else multiset(text)[c]
    decreases |text|
  {
    if text != [] {
      RemoveCounts(text[1..], c);
      assert text == [text[0]] + text[1..];
    }
  }
}
