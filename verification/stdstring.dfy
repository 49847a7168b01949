/** The few `std::string` operations the programs rely on, with the
    conversions between `size_t` positions and the `int` variables they are
    stored in. */
module StdString {
  import opened Wrappers

  /** Values of `size_t` are taken modulo 2^64. */
  const SizeModulus: int := 0x1_0000_0000_0000_0000

  /** An `int` (or a small unsigned difference) converted to `size_t`. */
  function ToSize(x: int): nat
    requires -SizeModulus <= x < SizeModulus
  {
    if x < 0 then x + SizeModulus else x
  }

  /** A `find` result stored in an `int`: `npos` becomes -1. */
  function AsInt(r: Option<nat>): int
  {
    if r.None? then -1 else r.value
  }

  /** `std::string::find` of one character. */
  function Find(s: string, c: char): (r: Option<nat>)
    ensures r.None? <==> c !in s
    ensures r.Some? ==> r.value < |s| && s[r.value] == c && c !in s[..r.value]
  {
    if |s| == 0 then None
    else if s[0] == c then Some(0)
    else match Find(s[1..], c)
      case None => None
      case Some(i) =>
        assert s[..i + 1] == [s[0]] + s[1..][..i];
        Some(i + 1)
  }

  /** `std::string::rfind` of one character. */
  function RFind(s: string, c: char): (r: Option<nat>)
    ensures r.None? <==> c !in s
    ensures r.Some? ==> r.value < |s| && s[r.value] == c && c !in s[r.value + 1..]
  {
    if |s| == 0 then None
    else if s[|s| - 1] == c then Some(|s| - 1)
    else
      var r := RFind(s[..|s| - 1], c);
      if r.Some? then
        assert s[r.value + 1..] == s[..|s| - 1][r.value + 1..] + [s[|s| - 1]];
        r
      else r
  }

  /** `std::string::substr(pos, count)`: the count is clipped to the end. */
  function Substr(s: string, pos: nat, count: nat): (r: string)
    requires pos <= |s|
    ensures r == s[pos..if count > |s| - pos then |s| else pos + count]
  {
    if count > |s| - pos then s[pos..] else s[pos..pos + count]
  }
}
