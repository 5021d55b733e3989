/** `String.prototype.trim` as the server uses it on note titles and on the
    content that feeds an invitation's preview. */
module Text {

  /** The code points ECMAScript counts as WhiteSpace or LineTerminator:
      tab, line feed, vertical tab, form feed, carriage return, space,
      no-break space, the Unicode space separators, the line and paragraph
      separators, and the byte order mark. */
  predicate IsWhitespace(c: char)
  {
    var n := c as int;
    || (0x9 <= n <= 0xD) || n == 0x20 || n == 0xA0 || n == 0x1680 || (0x2000 <= n <= 0x200A)
    || n == 0x2028 || n == 0x2029 || n == 0x202F || n == 0x205F || n == 0x3000 || n == 0xFEFF
  }

  /** Drops leading whitespace: the result is a suffix of `s`, what was cut
      is whitespace, and the result does not start with whitespace. */
  function TrimStart(s: string): (r: string)
    ensures |r| <= |s| && r == s[|s| - |r|..]
    ensures forall i :: 0 <= i < |s| - |r| ==> IsWhitespace(s[i])
    ensures r == [] || !IsWhitespace(r[0])
  {
    if |s| > 0 && IsWhitespace(s[0]) then TrimStart(s[1..]) else s
  }

  /** Drops trailing whitespace: the result is a prefix of `s`, what was cut
      is whitespace, and the result does not end with whitespace. */
  function TrimEnd(s: string): (r: string)
    ensures |r| <= |s| && r == s[..|r|]
    ensures forall i :: |r| <= i < |s| ==> IsWhitespace(s[i])
    ensures r == [] || !IsWhitespace(r[|r| - 1])
  {
    if |s| > 0 && IsWhitespace(s[|s| - 1]) then TrimEnd(s[..|s| - 1]) else s
  }

  /** `trim`: the infix of `s` that starts after the leading whitespace and
      leaves only whitespace after it, and that neither starts nor ends with
      whitespace; these facts determine it uniquely. */
  function Trim(s: string): (r: string)
    ensures LeadingCut(s) + |r| <= |s|
    ensures r == s[LeadingCut(s)..LeadingCut(s) + |r|]
    ensures forall i :: 0 <= i < LeadingCut(s) ==> IsWhitespace(s[i])
    ensures forall i :: LeadingCut(s) + |r| <= i < |s| ==> IsWhitespace(s[i])
    ensures r == [] || (!IsWhitespace(r[0]) && !IsWhitespace(r[|r| - 1]))
  {
    var t := TrimStart(s);
    var trimmed := TrimEnd(t);
    PrefixOfSuffix(s, t, trimmed, |s| - |t|);
    assert trimmed == [] || trimmed[0] == t[0];
    trimmed
  }

  /** How many whitespace characters `trim` cuts from the front of `s`. */
  function LeadingCut(s: string): nat
  {
    |s| - |TrimStart(s)|
  }

  /** A prefix `r` of the suffix `t` of `s` that starts at `cut` is the infix
      of `s` at `cut`, and whitespace after `r` in `t` is whitespace after it
      in `s`. */
  lemma PrefixOfSuffix(s: string, t: string, r: string, cut: nat)
    requires cut + |t| == |s| && t == s[cut..]
    requires |r| <= |t| && r == t[..|r|]
    requires forall j :: |r| <= j < |t| ==> IsWhitespace(t[j])
    ensures cut + |r| <= |s|
    ensures r == s[cut..cut + |r|]
    ensures forall i :: cut + |r| <= i < |s| ==> IsWhitespace(s[i])
  {
    forall i | cut + |r| <= i < |s|
      ensures IsWhitespace(s[i])
    {
      assert s[i] == t[i - cut];
    }
  }

  /** Trimming twice is trimming once, so the controller's `title.trim()` on a
      title the validator already trimmed changes nothing. */
  lemma TrimIdempotent(s: string)
    ensures Trim(Trim(s)) == Trim(s)
  {
    var r := Trim(s);
    assert TrimStart(r) == r;
    assert TrimEnd(r) == r;
  }
}
