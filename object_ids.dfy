/**
 * Announcement ids. The store keys documents by a BSON ObjectId; the API takes
 * the id as text and renders a stored id as 24 lower-case hex digits. The model
 * accepts exactly the 24-hex-digit texts (either case); the whitespace that
 * `bytes.fromhex` also skips between digit pairs is not modelled. A key of the
 * model is the lower-case rendering.
 */
module ObjectIds {
  import opened Wrappers

  predicate IsHexDigit(c: char) {
    '0' <= c <= '9' || 'a' <= c <= 'f' || 'A' <= c <= 'F'
  }

  predicate IsLowerHexDigit(c: char) {
    '0' <= c <= '9' || 'a' <= c <= 'f'
  }

  /** The text form of an ObjectId: 24 lower-case hex digits. */
  predicate IsObjectId(k: string) {
    |k| == 24 && forall i :: 0 <= i < |k| ==> IsLowerHexDigit(k[i])
  }

  function LowerHex(c: char): (l: char)
    requires IsHexDigit(c)
    ensures IsLowerHexDigit(l)
  {
    if 'A' <= c <= 'F' then (c as int - 'A' as int + 'a' as int) as char else c
  }

  /** `ObjectId(text)`: the key the text names, or `None` when the text is not 24 hex digits. */
  function ParseId(s: string): (r: Option<string>)
    ensures r.Some? <==> |s| == 24 && forall i :: 0 <= i < |s| ==> IsHexDigit(s[i])
    ensures r.Some? ==> IsObjectId(r.value)
  {
    if |s| == 24 && forall i :: 0 <= i < |s| ==> IsHexDigit(s[i])
    then Some(seq(|s|, i requires 0 <= i < |s| && IsHexDigit(s[i]) => LowerHex(s[i])))
    else None
  }

  /** A key's own text names that key: ids the API hands out can be passed back. */
  lemma ParseIdOfKey(k: string)
    requires IsObjectId(k)
    ensures ParseId(k) == Some(k)
  {
    var r := ParseId(k).value;
    assert forall i :: 0 <= i < |k| ==> r[i] == k[i];
    assert r == k;
  }

  /** Texts that differ only in the case of their letters name the same key. */
  lemma {:induction false} ParseIdIgnoresCase(s: string, t: string)
    requires ParseId(s).Some? && |t| == |s|
    requires forall i :: 0 <= i < |s| ==> IsHexDigit(t[i]) && LowerHex(t[i]) == LowerHex(s[i])
    ensures ParseId(t) == ParseId(s)
  {
    assert ParseId(t).Some?;
    var a, b := ParseId(s).value, ParseId(t).value;
    assert forall i :: 0 <= i < |a| ==> a[i] == b[i];
    assert a == b;
  }
}
