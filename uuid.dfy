/**
 * The 64-bit identifier that every scene entity, game object, state and
 * signal connection carries, with the hexadecimal text form the scene files
 * use. The implementation of the identifier type is not part of this model:
 * the text form follows what the identifier's own tests demand (`"0x"`
 * followed by upper-case hex digits without leading zeros; parsing accepts an
 * optional `0x`/`0X` prefix, digits of either case and ignores `-`).
 */
module Uuid {
  import opened Wrappers

  const UINT64_LIMIT: nat := 0x1_0000_0000_0000_0000

  /** An identifier is an unsigned 64-bit value. */
  type Uuid = n: nat | n < UINT64_LIMIT

  /** The reserved "no identifier" value. */
  const INVALID: Uuid := 0

  function HexChar(d: nat): (c: char)
    requires d < 16
    ensures HexValue(c) == Some(d)
    ensures c != '-' && c != 'x' && c != 'X'
  {
    if d < 10 then ('0' as int + d) as char else ('A' as int + d - 10) as char
  }

  /** The value of one hex digit, in either case; `None` for any other character. */
  function HexValue(c: char): (r: Option<nat>)
    ensures r.Some? ==> r.value < 16
    ensures r.Some? <==> ('0' <= c <= '9' || 'a' <= c <= 'f' || 'A' <= c <= 'F')
  {
    if '0' <= c <= '9' then Some(c as int - '0' as int)
    else if 'a' <= c <= 'f' then Some(c as int - 'a' as int + 10)
    else if 'A' <= c <= 'F' then Some(c as int - 'A' as int + 10)
    else None
  }

  /** Upper-case hex digits of `n`, most significant first, with no leading zeros. */
  function HexDigits(n: nat): (s: string)
    ensures |s| >= 1
    ensures n > 0 ==> s[0] != '0'
    decreases n
  {
    if n < 16 then [HexChar(n)] else HexDigits(n / 16) + [HexChar(n % 16)]
  }

  /** The value of a string of hex digits, skipping `-` delimiters; `None` on any other character. */
  function ParseDigits(s: string): (r: Option<nat>)
    decreases |s|
  {
    if s == [] then Some(0)
    else
      var last := s[|s| - 1];
      if last == '-' then ParseDigits(s[..|s| - 1])
      else match (HexValue(last), ParseDigits(s[..|s| - 1]))
        case (Some(d), Some(v)) => Some(v * 16 + d)
        case _ => None
  }

  /** Text form of an identifier. */
  function ToStringHex(u: Uuid): (s: string)
    ensures |s| >= 3 && s[..2] == "0x"
  {
    "0x" + HexDigits(u)
  }

  /**
   * Parses the text form. Text that holds a character other than a hex digit
   * or `-` after the optional prefix, or whose value does not fit in 64 bits,
   * gives INVALID.
   */
  function FromStringHex(s: string): (u: Uuid)
  {
    var body := if |s| >= 2 && s[0] == '0' && (s[1] == 'x' || s[1] == 'X') then s[2..] else s;
    match ParseDigits(body)
    case Some(v) => if v < UINT64_LIMIT then v else INVALID
    case None => INVALID
  }

  lemma {:induction false} ParseHexDigits(n: nat)
    ensures ParseDigits(HexDigits(n)) == Some(n)
    decreases n
  {
    var s := HexDigits(n);
    if n < 16 {
      assert s[..|s| - 1] == [];
    } else {
      ParseHexDigits(n / 16);
      assert s[..|s| - 1] == HexDigits(n / 16);
      assert s[|s| - 1] == HexChar(n % 16);
    }
  }

  /** Parsing the text form gives back the identifier. */
  lemma HexRoundTrip(u: Uuid)
    ensures FromStringHex(ToStringHex(u)) == u
  {
    var s := ToStringHex(u);
    assert s[2..] == HexDigits(u);
    ParseHexDigits(u);
  }

  /** Distinct identifiers have distinct text forms. */
  lemma ToStringHexInjective(u: Uuid, w: Uuid)
    requires ToStringHex(u) == ToStringHex(w)
    ensures u == w
  {
    HexRoundTrip(u);
    HexRoundTrip(w);
  }
}
