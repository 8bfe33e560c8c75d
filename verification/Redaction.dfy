/**
 * Error-message sanitisation (backend/src/server.js).
 *
 * `sanitizeMessage` replaces every match of S[A-Z2-7]{55} by "[REDACTED]". A global
 * replacement (section 22.2.6.11 of ECMA-262, 2023 edition) takes the leftmost match, copies
 * the text before it, and resumes right after it; `Redact` is that scanner.
 */
module Redaction {

  const MARK := "[REDACTED]"

  /** Length of a Stellar secret key: 'S' and 55 base32 characters. */
  const KEY_LENGTH: nat := 56

  predicate IsBase32(c: char) {
    'A' <= c <= 'Z' || '2' <= c <= '7'
  }

  /** The pattern matches `s` at position `i`. */
  predicate KeyAt(s: string, i: nat) {
    && i + KEY_LENGTH <= |s|
    && s[i] == 'S'
    && forall k :: i < k < i + KEY_LENGTH ==> IsBase32(s[k])
  }

  ghost predicate KeyFree(s: string) {
    forall i: nat :: !KeyAt(s, i)
  }

  function Redact(s: string): string {
    if s == "" then ""
    else if KeyAt(s, 0) then MARK + Redact(s[KEY_LENGTH..])
    else [s[0]] + Redact(s[1..])
  }

  /** A message is a string or a value of some other type, which is passed through. */
  datatype Message<+T> = Text(text: string) | Other(value: T)

  function Sanitize<T>(msg: Message<T>): Message<T> {
    match msg
    case Text(text) => Text(Redact(text))
    case Other(_) => msg
  }

  lemma KeyInSuffix(s: string, from: nat, i: nat)
    requires from <= |s|
    ensures KeyAt(s[from..], i) <==> KeyAt(s, from + i)
  {
    if from + i + KEY_LENGTH <= |s| {
      assert s[from..][i] == s[from + i];
      if KeyAt(s[from..], i) {
        forall k | from + i < k < from + i + KEY_LENGTH
          ensures IsBase32(s[k])
        {
          assert s[k] == s[from..][k - from];
        }
      }
    }
  }

  // ----- What the output cannot contain -----

  lemma KeyBecomesMark(s: string)
    ensures KeyAt(s, 0) ==> MARK <= Redact(s) && MARK[0] == '['
  {}

  /** A run of base32 characters at the head of the output was already at the head of the input. */
  lemma {:induction false} HeadRunIsCopied(s: string, n: nat)
    requires n <= |Redact(s)|
    requires forall k :: 0 <= k < n ==> IsBase32(Redact(s)[k])
    ensures n <= |s| && Redact(s)[..n] == s[..n]
    decreases n
  {
    if n > 0 {
      KeyBecomesMark(s);
      assert IsBase32(Redact(s)[0]);
      var rest := Redact(s[1..]);
      assert forall k :: 0 <= k < n - 1 ==> rest[k] == Redact(s)[k + 1];
      HeadRunIsCopied(s[1..], n - 1);
      assert Redact(s)[..n] == [s[0]] + rest[..n - 1];
      assert s[..n] == [s[0]] + s[1..][..n - 1];
    }
  }

  /** A key cannot begin with a copied character unless the input had a key there. */
  lemma HeadKeyIsCopied(s: string)
    requires s != ""
    ensures KeyAt([s[0]] + Redact(s[1..]), 0) ==> KeyAt(s, 0)
  {
    var rest := Redact(s[1..]);
    if KeyAt([s[0]] + rest, 0) {
      assert forall k :: 0 <= k < KEY_LENGTH - 1 ==> rest[k] == ([s[0]] + rest)[k + 1];
      HeadRunIsCopied(s[1..], KEY_LENGTH - 1);
      assert forall k :: 0 < k < KEY_LENGTH ==> s[k] == s[1..][..KEY_LENGTH - 1][k - 1];
    }
  }

  /** Putting text in front of `t` that no key can begin in leaves only the keys of `t`. */
  lemma PrependKeepsKeyFree(prefix: string, t: string)
    requires KeyFree(t)
    requires forall i: nat :: i < |prefix| ==> !KeyAt(prefix + t, i)
    ensures KeyFree(prefix + t)
  {
    forall i: nat
      ensures !KeyAt(prefix + t, i)
    {
      if i >= |prefix| {
        assert (prefix + t)[|prefix|..] == t;
        KeyInSuffix(prefix + t, |prefix|, i - |prefix|);
      }
    }
  }

  /**
   * No output contains a key, not even one that straddles copied text and an inserted mark.
   */
  lemma {:induction false} RedactedIsKeyFree(s: string)
    ensures KeyFree(Redact(s))
    decreases |s|
  {
    if s == "" {
    } else if KeyAt(s, 0) {
      var rest := Redact(s[KEY_LENGTH..]);
      RedactedIsKeyFree(s[KEY_LENGTH..]);
      assert forall i :: 0 <= i < |MARK| ==> MARK[i] != 'S';
      assert forall i :: 0 <= i < |MARK| ==> (MARK + rest)[i] == MARK[i];
      PrependKeepsKeyFree(MARK, rest);
    } else {
      RedactedIsKeyFree(s[1..]);
      HeadKeyIsCopied(s);
      PrependKeepsKeyFree([s[0]], Redact(s[1..]));
    }
  }

  // ----- The scanner is the leftmost global replacement -----

  /**
   * `ps` are the positions a global match visits from `from` on: each is the first match at or
   * after the end of the previous one, and no match follows the last.
   */
  ghost predicate LeftmostMatches(s: string, from: nat, ps: seq<nat>)
    decreases |ps|
  {
    if ps == [] then
      forall i: nat :: from <= i ==> !KeyAt(s, i)
    else
      && from <= ps[0]
      && KeyAt(s, ps[0])
      && (forall i: nat :: from <= i < ps[0] ==> !KeyAt(s, i))
      && LeftmostMatches(s, ps[0] + KEY_LENGTH, ps[1..])
  }

  /** The text outside the spans, in order, with the mark in place of each span. */
  ghost function Spliced(s: string, from: nat, ps: seq<nat>): string
    requires from <= |s| && LeftmostMatches(s, from, ps)
    decreases |ps|
  {
    if ps == [] then s[from..]
    else s[from..ps[0]] + MARK + Spliced(s, ps[0] + KEY_LENGTH, ps[1..])
  }

  /** Skipping a position where nothing matches moves one character out of the splice. */
  lemma SplicedStep(s: string, from: nat, ps: seq<nat>)
    requires from < |s| && !KeyAt(s, from) && LeftmostMatches(s, from, ps)
    ensures LeftmostMatches(s, from + 1, ps)
    ensures Spliced(s, from, ps) == [s[from]] + Spliced(s, from + 1, ps)
  {
    if ps == [] {
      assert s[from..] == [s[from]] + s[from + 1..];
    } else {
      var rest := Spliced(s, ps[0] + KEY_LENGTH, ps[1..]);
      assert s[from..ps[0]] == [s[from]] + s[from + 1..ps[0]];
      ConcatAssociates([s[from]], s[from + 1..ps[0]], MARK, rest);
    }
  }

  lemma ConcatAssociates(a: string, b: string, c: string, d: string)
    ensures a + b + c + d == a + (b + c + d)
  {}

  /** For every input, the scanner yields exactly the splice at the leftmost matches. */
  lemma {:induction false} RedactSplicesLeftmostMatches(s: string, from: nat, ps: seq<nat>)
    requires from <= |s| && LeftmostMatches(s, from, ps)
    ensures Redact(s[from..]) == Spliced(s, from, ps)
    decreases |s| - from
  {
    if from < |s| {
      KeyInSuffix(s, from, 0);
      if KeyAt(s, from) {
        RedactSplicesLeftmostMatches(s, from + KEY_LENGTH, ps[1..]);
        assert s[from..][KEY_LENGTH..] == s[from + KEY_LENGTH..];
        assert s[from..ps[0]] == "";
      } else {
        SplicedStep(s, from, ps);
        RedactSplicesLeftmostMatches(s, from + 1, ps);
        assert s[from..][1..] == s[from + 1..];
      }
    }
  }

  /** Every string has such a list of matches. */
  lemma {:induction false} LeftmostMatchesExist(s: string, from: nat) returns (ps: seq<nat>)
    requires from <= |s|
    ensures LeftmostMatches(s, from, ps)
    decreases |s| - from
  {
    if KeyAt(s, from) {
      var rest := LeftmostMatchesExist(s, from + KEY_LENGTH);
      ps := [from] + rest;
      assert ps[1..] == rest;
    } else if from < |s| {
      ps := LeftmostMatchesExist(s, from + 1);
    } else {
      ps := [];
    }
  }

  // ----- Consequences -----

  /** A string is left as it is exactly when it holds no key. */
  lemma UnchangedIffKeyFree(s: string)
    ensures Redact(s) == s <==> KeyFree(s)
  {
    RedactedIsKeyFree(s);
    if KeyFree(s) {
      assert LeftmostMatches(s, 0, []);
      RedactSplicesLeftmostMatches(s, 0, []);
      assert s[0..] == s;
    }
  }

  /** The full contract of `sanitizeMessage`: safe, idempotent, and other values pass through. */
  lemma SanitizeIsSafeAndIdempotent<T>(msg: Message<T>)
    ensures Sanitize(msg).Text? <==> msg.Text?
    ensures msg.Text? ==> KeyFree(Sanitize(msg).text)
    ensures msg.Other? ==> Sanitize(msg) == msg
    ensures Sanitize(Sanitize(msg)) == Sanitize(msg)
    ensures Sanitize(msg) == msg <==> (msg.Text? ==> KeyFree(msg.text))
  {
    if msg.Text? {
      RedactedIsKeyFree(msg.text);
      UnchangedIffKeyFree(Redact(msg.text));
      UnchangedIffKeyFree(msg.text);
    }
  }

  /** The pattern spelled out: at `i` stand S and 55 of the characters A to Z and 2 to 7. */
  ghost predicate LooksLikeKey(s: string, i: nat) {
    && i + 56 <= |s| && s[i] == 'S'
    && forall k :: i + 1 <= k <= i + 55 ==> 'A' <= s[k] <= 'Z' || '2' <= s[k] <= '7'
  }

  lemma KeyAtIffLooksLikeKey(s: string, i: nat)
    ensures KeyAt(s, i) <==> LooksLikeKey(s, i)
  {}

  /** Nothing in a sanitised text looks like a key. */
  lemma NothingLooksLikeKey(s: string, i: nat)
    ensures !LooksLikeKey(Redact(s), i)
  {
    RedactedIsKeyFree(s);
    KeyAtIffLooksLikeKey(Redact(s), i);
  }

  /** The first key of a text, at `i`, is replaced by the mark; what is before it is copied. */
  lemma {:induction false} FirstKeyIsReplaced(s: string, i: nat)
    requires LooksLikeKey(s, i) && forall j: nat :: j < i ==> !LooksLikeKey(s, j)
    ensures Redact(s) == s[..i] + "[REDACTED]" + Redact(s[i + 56..])
    decreases i
  {
    KeyAtIffLooksLikeKey(s, 0);
    if i > 0 {
      forall j: nat
        ensures KeyAt(s[1..], j) <==> KeyAt(s, j + 1)
      {
        KeyInSuffix(s, 1, j);
      }
      forall j: nat
        ensures LooksLikeKey(s[1..], j) <==> KeyAt(s[1..], j)
        ensures LooksLikeKey(s, j + 1) <==> KeyAt(s, j + 1)
      {
        KeyAtIffLooksLikeKey(s[1..], j);
        KeyAtIffLooksLikeKey(s, j + 1);
      }
      FirstKeyIsReplaced(s[1..], i - 1);
      assert s[1..][i - 1 + 56..] == s[i + 56..];
      assert s[..i] == [s[0]] + s[1..][..i - 1];
    }
  }
}
