/** Rust's `str::trim`, on strings modelled as sequences of Unicode scalar values. */
module Text {

  /** `char::is_whitespace`: the characters carrying the Unicode White_Space property. */
  predicate IsWhitespace(c: char)
  {
    var n := c as int;
    || (0x09 <= n <= 0x0D)
    || n == 0x20
    || n == 0x85
    || n == 0xA0
    || n == 0x1680
    || (0x2000 <= n <= 0x200A)
    || n == 0x2028
    || n == 0x2029
    || n == 0x202F
    || n == 0x205F
    || n == 0x3000
  }

  predicate AllWhitespace(s: string)
  {
    forall k :: 0 <= k < |s| ==> IsWhitespace(s[k])
  }

  /** The number of whitespace characters the string starts with. */
  function LeadingWhitespace(s: string): (n: nat)
    ensures n <= |s|
    ensures forall k :: 0 <= k < n ==> IsWhitespace(s[k])
    ensures n < |s| ==> !IsWhitespace(s[n])
  {
    if s != [] && IsWhitespace(s[0]) then
      var n := 1 + LeadingWhitespace(s[1..]);
      assert forall k :: 1 <= k < n ==> s[k] == s[1..][k - 1];
      n
    else 0
  }

  /** The number of whitespace characters the string ends with. */
  function TrailingWhitespace(s: string): (n: nat)
    ensures n <= |s|
    ensures forall k :: |s| - n <= k < |s| ==> IsWhitespace(s[k])
    ensures n < |s| ==> !IsWhitespace(s[|s| - n - 1])
  {
    if s != [] && IsWhitespace(s[|s| - 1]) then
      var n := 1 + TrailingWhitespace(s[..|s| - 1]);
      assert forall k :: |s| - n <= k < |s| - 1 ==> s[k] == s[..|s| - 1][k];
      n
    else 0
  }

  /**
   * `str::trim`: the part of the string between its leading and its trailing whitespace; nothing is
   * left of a string that is whitespace throughout.
   */
  function Trim(s: string): (r: string)
    ensures |r| <= |s|
    ensures r != [] ==> !IsWhitespace(r[0]) && !IsWhitespace(r[|r| - 1])
    ensures r == [] <==> AllWhitespace(s)
  {
    var lo := LeadingWhitespace(s);
    if lo == |s| then []
    else
      var hi := |s| - TrailingWhitespace(s);
      assert lo < hi;
      s[lo..hi]
  }

  /** The trim is the part of the string between a whitespace prefix and a whitespace suffix. */
  lemma TrimIsSlice(s: string) returns (lo: nat, hi: nat)
    ensures lo <= hi <= |s|
    ensures Trim(s) == s[lo..hi]
    ensures AllWhitespace(s[..lo]) && AllWhitespace(s[hi..])
  {
    lo := LeadingWhitespace(s);
    hi := if lo == |s| then lo else |s| - TrailingWhitespace(s);
  }

  /** A string that neither starts nor ends with whitespace is its own trim. */
  lemma TrimOfTrimmed(r: string)
    requires r != [] ==> !IsWhitespace(r[0]) && !IsWhitespace(r[|r| - 1])
    ensures Trim(r) == r
  {
  }

  /** Trimming twice trims no more than trimming once. */
  lemma TrimIdempotent(s: string)
    ensures Trim(Trim(s)) == Trim(s)
  {
    TrimOfTrimmed(Trim(s));
  }

  datatype Option<T> = None | Some(value: T)

  /**
   * The filter applied to a paragraph pasted into the page: it is trimmed, and dropped when it is empty
   * or when it is the text currently selected on the page once line endings are normalised.
   * `normalize` stands for the `normalize_line_endings` crate, which is not part of this model.
   */
  function IngestedText(raw: string, selected: string, normalize: string -> string): (r: Option<string>)
    ensures r.Some? ==> r.value == Trim(raw) && r.value != []
    ensures r.Some? ==> !IsWhitespace(r.value[0]) && !IsWhitespace(r.value[|r.value| - 1])
    ensures r.None? <==> AllWhitespace(raw) || normalize(selected) == normalize(Trim(raw))
  {
    var text := Trim(raw);
    if text == [] then None
    else if normalize(selected) == normalize(text) then None
    else Some(text)
  }
}
