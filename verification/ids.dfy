/** Document identifiers of the store: the 24-hexadecimal-digit strings that
    `bson.ObjectId` accepts, and the clock readings stamped on documents. */
module Ids {
  import opened Wrappers

  /** The string form of a document id, as the repositories hand it out. */
  type Id = string

  /** A reading of the wall clock (`datetime.utcnow()`); the model only ever
      asks whether a timestamp is set or not, so any ordered type would do. */
  type Time = nat

  predicate IsHexDigit(c: char) {
    '0' <= c <= '9' || 'a' <= c <= 'f' || 'A' <= c <= 'F'
  }

  /** The strings `ObjectId(s)` accepts: exactly 24 hexadecimal digits, in either case. */
  predicate IsObjectId(s: string) {
    |s| == 24 && forall i :: 0 <= i < |s| ==> IsHexDigit(s[i])
  }

  /** The strings `str(ObjectId(...))` produces: 24 lower-case hexadecimal digits.
      Every key of every collection has this form. */
  predicate IsCanonical(s: string) {
    |s| == 24 && forall i :: 0 <= i < |s| ==> '0' <= s[i] <= '9' || 'a' <= s[i] <= 'f'
  }

  function LowerHex(c: char): char {
    if 'A' <= c <= 'F' then (c as int + 32) as char else c
  }

  /** `ObjectId(s)`: a malformed string raises (modelled as None); a well-formed
      one denotes the document whose id is the same digits in lower case. */
  function ParseObjectId(s: string): (r: Option<Id>)
    ensures r.Some? <==> IsObjectId(s)
    ensures r.Some? ==> IsCanonical(r.value) && |r.value| == |s|
    ensures r.Some? ==> forall i :: 0 <= i < |s| ==> r.value[i] == LowerHex(s[i])
    ensures IsCanonical(s) ==> r == Some(s)
  {
    if IsObjectId(s) then
      var t := seq(|s|, i requires 0 <= i < |s| => LowerHex(s[i]));
      assert IsCanonical(s) ==> t == s;
      Some(t)
    else None
  }

  /** Parsing is idempotent: the id a string denotes denotes itself. */
  lemma ParseIdempotent(s: string)
    requires IsObjectId(s)
    ensures ParseObjectId(ParseObjectId(s).value) == ParseObjectId(s)
  {
  }

  /** Two strings denote the same document exactly when they agree up to the
      case of their hexadecimal letters. */
  lemma {:induction false} SameDocument(s: string, t: string)
    requires IsObjectId(s) && IsObjectId(t)
    ensures ParseObjectId(s) == ParseObjectId(t) <==>
            forall i :: 0 <= i < 24 ==> LowerHex(s[i]) == LowerHex(t[i])
  {
    var a, b := ParseObjectId(s).value, ParseObjectId(t).value;
    if forall i :: 0 <= i < 24 ==> LowerHex(s[i]) == LowerHex(t[i]) {
      assert forall i :: 0 <= i < 24 ==> a[i] == b[i];
      assert a == b;
    }
  }
}
