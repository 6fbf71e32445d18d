/** The two string operations the catalog search uses: lower-casing
    (`String.prototype.toLowerCase`) and substring containment
    (`String.prototype.includes`).

    Lower-casing is modelled on the Latin-1 range only: `A`-`Z` and the
    accented capitals U+00C0-U+00DE (except the multiplication sign U+00D7)
    move 32 code points down to their small letters; every other character
    is left alone. That covers every letter of the catalog's product names. */
module Text {

  predicate IsUpper(c: char) {
    || ('A' <= c <= 'Z')
    || ('\U{00C0}' <= c <= '\U{00DE}' && c != '\U{00D7}')
  }

  function LowerChar(c: char): (r: char)
    ensures !IsUpper(r)
    ensures !IsUpper(c) ==> r == c
    ensures IsUpper(c) ==> r as int - c as int == 32
  {
    if IsUpper(c) then (c as int + 32) as char else c
  }

  /** `s.toLowerCase()`: same length, no capital left, other characters kept. */
  function Lower(s: string): (r: string)
    ensures |r| == |s|
    ensures forall i :: 0 <= i < |r| ==> !IsUpper(r[i])
    ensures forall i :: 0 <= i < |s| && !IsUpper(s[i]) ==> r[i] == s[i]
    ensures forall i :: 0 <= i < |s| ==> r[i] == LowerChar(s[i])
  {
    seq(|s|, i requires 0 <= i < |s| => LowerChar(s[i]))
  }

  /** Lower-casing twice is lower-casing once. */
  lemma LowerIdempotent(s: string)
    ensures Lower(Lower(s)) == Lower(s)
  {
  }

  /** `needle` occurs in `hay` starting at position `i`. */
  ghost predicate OccursAt(hay: string, needle: string, i: int) {
    0 <= i && i + |needle| <= |hay| && hay[i..i + |needle|] == needle
  }

  /** `hay.includes(needle)`: try every start position from the left. */
  function Includes(hay: string, needle: string): (r: bool)
    ensures |needle| == 0 ==> r
    ensures r ==> |needle| <= |hay|
    decreases |hay|
  {
    if |needle| > |hay| then false
    else if hay[..|needle|] == needle then true
    else Includes(hay[1..], needle)
  }

  /** `Includes` holds exactly when the needle occurs at some position. */
  lemma {:induction false} IncludesIffOccurs(hay: string, needle: string)
    ensures Includes(hay, needle) <==> exists i :: OccursAt(hay, needle, i)
    decreases |hay|
  {
    if |needle| > |hay| {
      assert forall i :: !OccursAt(hay, needle, i);
    } else if hay[..|needle|] == needle {
      assert OccursAt(hay, needle, 0);
    } else {
      var tail := hay[1..];
      IncludesIffOccurs(tail, needle);
      if Includes(tail, needle) {
        var i :| OccursAt(tail, needle, i);
        assert hay[i + 1..i + 1 + |needle|] == tail[i..i + |needle|];
        assert OccursAt(hay, needle, i + 1);
      } else {
        forall i | OccursAt(hay, needle, i)
          ensures false
        {
          assert i != 0;
          assert tail[i - 1..i - 1 + |needle|] == hay[i..i + |needle|];
          assert OccursAt(tail, needle, i - 1);
        }
      }
    }
  }
}
