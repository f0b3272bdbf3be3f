/**
 * The alphanumeric code table of ISO/IEC 18004 (section 6.4.4, Table 5) as
 * internal/qrcode/codes.go implements it twice: a lookup in a 59-entry table
 * indexed from the space character, and a switch.
 */
module Codes {

  /** Go's `rune`: a signed 32-bit integer. */
  type rune = x: int | -0x8000_0000 <= x < 0x8000_0000

  /** `InvalidAlphaCode`: the code returned alongside every error. */
  const InvalidAlphaCode: nat := 255

  /** The 45 characters of the alphanumeric mode, in code order. */
  const Alphabet: string := "0123456789" + "ABCDEFGHIJKLMNOPQRSTUVWXYZ" + " $%*+-./:"

  /**
   * `kSymbolTable`: the code of each character from ' ' (32) to 'Z' (90),
   * 255 for the characters in that range outside the alphabet.
   */
  const SymbolTable: seq<nat> :=
      [36]                                      // space
    + [255, 255, 255]
    + [37, 38]                                  // $ %
    + [255, 255, 255, 255]
    + [39, 40]                                  // * +
    + [255]
    + [41, 42, 43]                              // - . /
    + [0, 1, 2, 3, 4, 5, 6, 7, 8, 9]            // digits
    + [44]                                      // :
    + [255, 255, 255, 255, 255, 255]
    + [10, 11, 12, 13, 14, 15, 16, 17, 18, 19]  // A..J
    + [20, 21, 22, 23, 24, 25, 26, 27, 28, 29]  // K..T
    + [30, 31, 32, 33, 34, 35]                  // U..Z

  /**
   * The outcome of a lookup: a code, a failure (Go's `InvalidAlphaCode`
   * with an error), or the run-time fault of indexing the table at a
   * negative position.
   */
  datatype Lookup = Found(code: nat) | Failed(code: nat, error: string) | IndexFault

  /** Go's `int32` subtraction, which wraps around. */
  function Sub32(a: rune, b: rune): (d: rune)
    ensures -0x8000_0000 <= a - b < 0x8000_0000 ==> d == a - b
    ensures a - b < -0x8000_0000 ==> d == a - b + 0x1_0000_0000
  {
    var x := a - b;
    if x < -0x8000_0000 then x + 0x1_0000_0000
    else if x >= 0x8000_0000 then x - 0x1_0000_0000
    else x
  }

  /** `GetAlphaCode`: look the character up in the table. */
  function GetAlphaCode(ch: rune): (r: Lookup)
    ensures r.Found? ==> r.code <= 44
    ensures r.Failed? ==> r.code == InvalidAlphaCode
    ensures ch > 'Z' as int ==> r.Failed?
    ensures r.IndexFault? <==> -0x8000_0000 + ' ' as int <= ch < ' ' as int
  {
    if ch > 'Z' as int then
      Failed(InvalidAlphaCode, "character code too high")
    else
      var i := Sub32(ch, ' ' as int);
      if i >= |SymbolTable| then
        Failed(InvalidAlphaCode, "table index out of bounds")
      else if i < 0 then
        IndexFault
      else if SymbolTable[i] <= 44 then
        Found(SymbolTable[i])
      else
        Failed(InvalidAlphaCode, "invalid character code")
  }

  /** `GetAlphaCode_Switch`: the same mapping written as a switch. */
  function GetAlphaCodeSwitch(ch: rune): (r: Lookup)
    ensures r.Found? ==> r.code <= 44 && ' ' as int <= ch <= 'Z' as int
    ensures !r.Found? ==> r == Failed(InvalidAlphaCode, "invalid character")
  {
    if 'A' as int <= ch <= 'Z' as int then Found(ch - 'A' as int + 10)
    else if '0' as int <= ch <= '9' as int then Found(ch - '0' as int)
    else if ch == ' ' as int then Found(36)
    else if ch == '$' as int then Found(37)
    else if ch == '%' as int then Found(38)
    else if ch == '*' as int then Found(39)
    else if ch == '+' as int then Found(40)
    else if ch == '-' as int then Found(41)
    else if ch == '.' as int then Found(42)
    else if ch == '/' as int then Found(43)
    else if ch == ':' as int then Found(44)
    else Failed(InvalidAlphaCode, "invalid character")
  }

  /** The two lookups give the same code, and succeed or fail together. */
  predicate Agree(a: Lookup, b: Lookup)
  {
    !a.IndexFault? && !b.IndexFault? && a.Found? == b.Found? && a.code == b.code
  }

  /** The table has an entry for each character from ' ' to 'Z'. */
  lemma SymbolTableSpan()
    ensures |SymbolTable| == 59 == 'Z' as int - ' ' as int + 1
    ensures |Alphabet| == 45
  {
  }

  // The table against the switch, one stretch of characters at a time.

  lemma TablePunctuation(ch: rune)
    requires ' ' as int <= ch < '0' as int
    ensures SymbolTable[ch - 32] == GetAlphaCodeSwitch(ch).code
  {
  }

  lemma TableDigits(ch: rune)
    requires '0' as int <= ch <= '9' as int
    ensures SymbolTable[ch - 32] == GetAlphaCodeSwitch(ch).code
  {
  }

  lemma TableColon(ch: rune)
    requires '9' as int < ch < 'A' as int
    ensures SymbolTable[ch - 32] == GetAlphaCodeSwitch(ch).code
  {
  }

  lemma TableLetters(ch: rune)
    requires 'A' as int <= ch <= 'Z' as int
    ensures SymbolTable[ch - 32] == GetAlphaCodeSwitch(ch).code
  {
  }

  /**
   * Entry `ch - ' '` of the table is the switch's code for `ch`: its code
   * for a character of the alphabet, 255 for any other.
   */
  lemma TableMatchesSwitch(ch: rune)
    requires ' ' as int <= ch <= 'Z' as int
    ensures SymbolTable[ch - 32] == GetAlphaCodeSwitch(ch).code
  {
    if ch < '0' as int {
      TablePunctuation(ch);
    } else if ch <= '9' as int {
      TableDigits(ch);
    } else if ch < 'A' as int {
      TableColon(ch);
    } else {
      TableLetters(ch);
    }
  }

  // The alphabet through the switch, one stretch of codes at a time.

  lemma SwitchDigits(k: nat)
    requires k < 10
    ensures GetAlphaCodeSwitch(Alphabet[k] as int) == Found(k)
  {
  }

  lemma SwitchLetters(k: nat)
    requires 10 <= k < 36
    ensures GetAlphaCodeSwitch(Alphabet[k] as int) == Found(k)
  {
  }

  lemma SwitchSymbols(k: nat)
    requires 36 <= k < 45
    ensures GetAlphaCodeSwitch(Alphabet[k] as int) == Found(k)
  {
  }

  /**
   * The switch is a bijection between the alphabet and the codes 0..44:
   * a found code names the character it came from.
   */
  lemma SwitchInverse(ch: rune)
    requires GetAlphaCodeSwitch(ch).Found?
    ensures Alphabet[GetAlphaCodeSwitch(ch).code] as int == ch
  {
    if 'A' as int <= ch <= 'Z' as int {
      AlphabetLetter(ch);
    } else if '0' as int <= ch <= '9' as int {
      AlphabetDigit(ch);
    } else {
      AlphabetSymbol(ch);
    }
  }

  lemma AlphabetSymbol(ch: rune)
    requires GetAlphaCodeSwitch(ch).Found?
    requires !('A' as int <= ch <= 'Z' as int) && !('0' as int <= ch <= '9' as int)
    ensures Alphabet[GetAlphaCodeSwitch(ch).code] as int == ch
  {
  }

  lemma AlphabetLetter(ch: rune)
    requires 'A' as int <= ch <= 'Z' as int
    ensures Alphabet[ch - 55] as int == ch
  {
  }

  lemma AlphabetDigit(ch: rune)
    requires '0' as int <= ch <= '9' as int
    ensures Alphabet[ch - 48] as int == ch
  {
  }

  /** The `k`-th character of the alphabet has code `k` under both lookups. */
  lemma AlphabetCodes(k: nat)
    requires k < |Alphabet|
    ensures GetAlphaCode(Alphabet[k] as int) == Found(k)
    ensures GetAlphaCodeSwitch(Alphabet[k] as int) == Found(k)
  {
    if k < 10 {
      SwitchDigits(k);
    } else if k < 36 {
      SwitchLetters(k);
    } else {
      SwitchSymbols(k);
    }
    LookupsAgree(Alphabet[k] as int);
  }

  /**
   * From the space character up, both lookups return the same code and
   * succeed on the same characters.
   */
  lemma LookupsAgree(ch: rune)
    requires ch >= ' ' as int
    ensures !GetAlphaCode(ch).IndexFault?
    ensures Agree(GetAlphaCode(ch), GetAlphaCodeSwitch(ch))
  {
    if ch <= 'Z' as int {
      TableMatchesSwitch(ch);
    }
  }

  /**
   * Below the space character the table index is negative and the bounds
   * test misses it: the table lookup faults where the switch fails cleanly.
   */
  lemma LookupFaultsBelowSpace()
    ensures GetAlphaCode(31) == IndexFault
    ensures GetAlphaCodeSwitch(31) == Failed(InvalidAlphaCode, "invalid character")
  {
  }

  /**
   * `GetAlphaCode` with the missing lower bound added: a negative index
   * fails like one past the end.
   */
  function GetAlphaCodeFixed(ch: rune): (r: Lookup)
    ensures Agree(r, GetAlphaCodeSwitch(ch))
    ensures r.Failed? ==> r.code == InvalidAlphaCode
    ensures !r.IndexFault?
  {
    if ch > 'Z' as int then
      Failed(InvalidAlphaCode, "character code too high")
    else
      var i := Sub32(ch, ' ' as int);
      if i >= |SymbolTable| || i < 0 then
        Failed(InvalidAlphaCode, "table index out of bounds")
      else
        LookupsAgree(ch);
        if SymbolTable[i] <= 44 then
          Found(SymbolTable[i])
        else
          Failed(InvalidAlphaCode, "invalid character code")
  }

  /** Distinct accepted characters receive distinct codes, under both lookups. */
  lemma CodesDistinct(c1: rune, c2: rune)
    requires GetAlphaCode(c1).Found? && GetAlphaCode(c2).Found?
    requires c1 != c2
    ensures GetAlphaCode(c1).code != GetAlphaCode(c2).code
    ensures GetAlphaCodeSwitch(c1).code != GetAlphaCodeSwitch(c2).code
  {
    LookupsAgree(c1);
    LookupsAgree(c2);
    SwitchInverse(c1);
    SwitchInverse(c2);
  }
}
