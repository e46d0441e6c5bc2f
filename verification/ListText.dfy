/** The comma separated text in which completed message numbers are stored. */
module ListText {
  import opened Prelude

  // ---- decimal text of a long -------------------------------------------------------------

  predicate IsDigit(c: char) { '0' <= c <= '9' }

  predicate IsSpace(c: char) { c == ' ' || c == '\t' || c == '\n' || c == '\r' }

  function PrintNat(n: nat): (s: string)
    ensures s != [] && forall c :: c in s ==> IsDigit(c)
  {
    var digit := ('0' as int + n % 10) as char;
    if n < 10 then [digit] else PrintNat(n / 10) + [digit]
  }

  /** What sprintf writes for "%ld". */
  function PrintLong(n: int): (s: string) {
    if n < 0 then "-" + PrintNat(-n) else PrintNat(n)
  }

  function DigitPrefix(s: string, value: nat): nat {
    if s == [] || !IsDigit(s[0]) then value
    else DigitPrefix(s[1..], 10 * value + (s[0] as int - '0' as int))
  }

  /** What atol reads: blanks, an optional sign, then digits up to the first other character. */
  function ParseLong(s: string): int {
    if s == [] then 0
    else if IsSpace(s[0]) then ParseLong(s[1..])
    else if s[0] == '-' then 0 - DigitPrefix(s[1..], 0)
    else if s[0] == '+' then DigitPrefix(s[1..], 0)
    else DigitPrefix(s, 0)
  }

  lemma {:induction false} DigitPrefixAppend(s: string, c: char, value: nat)
    requires forall d :: d in s ==> IsDigit(d)
    requires IsDigit(c)
    ensures DigitPrefix(s + [c], value) == 10 * DigitPrefix(s, value) + (c as int - '0' as int)
  {
    if s == [] {
      assert (s + [c])[1..] == [];
    } else {
      assert s[0] in s;
      assert (s + [c])[1..] == s[1..] + [c];
      DigitPrefixAppend(s[1..], c, 10 * value + (s[0] as int - '0' as int));
    }
  }

  lemma {:induction false} ParsePrintNat(n: nat)
    ensures DigitPrefix(PrintNat(n), 0) == n
  {
    var digit := ('0' as int + n % 10) as char;
    if n < 10 {
      assert PrintNat(n) == [] + [digit];
      DigitPrefixAppend([], digit, 0);
    } else {
      ParsePrintNat(n / 10);
      DigitPrefixAppend(PrintNat(n / 10), digit, 0);
    }
  }

  /** Printing and reading a message number gives the number back. */
  lemma {:induction false} ParsePrint(n: int)
    ensures ParseLong(PrintLong(n)) == n
  {
    if n < 0 {
      ParsePrintNat(-n);
      assert PrintLong(n)[1..] == PrintNat(-n);
    } else {
      ParsePrintNat(n);
      assert IsDigit(PrintNat(n)[0]) by { assert PrintNat(n)[0] in PrintNat(n); }
    }
  }

  lemma PrintIsToken(n: int)
    ensures PrintLong(n) != [] && ',' !in PrintLong(n)
  {
    if n < 0 { assert ',' !in PrintNat(-n); } else { assert ',' !in PrintNat(n); }
  }

  // ---- splitting at commas ----------------------------------------------------------------

  /** The tokens strtok finds in s, the characters in current having been read already:
      empty tokens are skipped. */
  function TokensFrom(s: string, current: string): seq<string> {
    var flushed := if current == [] then [] else [current];
    if s == [] then flushed
    else if s[0] == ',' then flushed + TokensFrom(s[1..], [])
    else TokensFrom(s[1..], current + [s[0]])
  }

  function Tokens(s: string): seq<string> { TokensFrom(s, []) }

  function ParseAll(tokens: seq<string>): (r: seq<int>)
    ensures |r| == |tokens|
    ensures forall i :: 0 <= i < |r| ==> r[i] == ParseLong(tokens[i])
  {
    if tokens == [] then [] else [ParseLong(tokens[0])] + ParseAll(tokens[1..])
  }

  function Numbers(text: string): seq<int> { ParseAll(Tokens(text)) }

  /** Every token is the printed form of the number it stands for. */
  ghost predicate Printed(text: string) {
    forall t :: t in Tokens(text) ==> t == PrintLong(ParseLong(t))
  }

  lemma {:induction false} TokensSplitAtComma(s: string, t: string, current: string)
    ensures TokensFrom(s + "," + t, current) == TokensFrom(s, current) + Tokens(t)
  {
    if s == [] {
      assert s + "," + t == "," + t;
      assert ("," + t)[1..] == t;
    } else {
      assert (s + "," + t)[1..] == s[1..] + "," + t;
      if s[0] == ',' { TokensSplitAtComma(s[1..], t, []); }
      else { TokensSplitAtComma(s[1..], t, current + [s[0]]); }
    }
  }

  lemma {:induction false} SingleToken(t: string, current: string)
    requires ',' !in t && current + t != []
    ensures TokensFrom(t, current) == [current + t]
  {
    if t == [] {
      assert current + t == current;
    } else {
      SingleToken(t[1..], current + [t[0]]);
      assert current + [t[0]] + t[1..] == current + t;
    }
  }

  /** Appending "," and the printed number appends exactly that number, whatever text was there. */
  lemma AppendNumber(text: string, n: int)
    ensures Numbers(text + "," + PrintLong(n)) == Numbers(text) + [n]
    ensures Printed(text) ==> Printed(text + "," + PrintLong(n))
    ensures Numbers(PrintLong(n)) == [n] && Printed(PrintLong(n))
    ensures Numbers("") == [] && Printed("")
  {
    PrintIsToken(n);
    ParsePrint(n);
    assert [] + PrintLong(n) == PrintLong(n);
    SingleToken(PrintLong(n), []);
    TokensSplitAtComma(text, PrintLong(n), []);
    assert Tokens(text + "," + PrintLong(n)) == Tokens(text) + [PrintLong(n)];
    assert Numbers(text + "," + PrintLong(n)) == Numbers(text) + [n];
  }

  /** The number test of the in handler and the string test of the application processor agree on
      every list the two of them write. */
  lemma NumericAndTextualTestsAgree(text: string, n: int)
    requires Printed(text)
    ensures n in Numbers(text) <==> PrintLong(n) in Tokens(text)
  {
    ParsePrint(n);
    if n in Numbers(text) {
      var i :| 0 <= i < |Numbers(text)| && Numbers(text)[i] == n;
      assert Tokens(text)[i] in Tokens(text);
    }
    if PrintLong(n) in Tokens(text) {
      var i :| 0 <= i < |Tokens(text)| && Tokens(text)[i] == PrintLong(n);
      assert Numbers(text)[i] == n;
    }
  }

  // ---- the operations on list text --------------------------------------------------------

  /** sandesha2_utils_get_array_list_from_string: the distinct tokens, no list for an empty text. */
  method GetArrayListFromString(text: string) returns (list: seq<string>)
    ensures forall t :: t in list <==> t in Tokens(text)
    ensures NoDuplicates(list)
  {
    list := [];
    var tokens := Tokens(text);
    for i := 0 to |tokens|
      invariant forall t :: t in list <==> t in tokens[..i]
      invariant NoDuplicates(list)
    {
      assert tokens[..i + 1] == tokens[..i] + [tokens[i]];
      if tokens[i] !in list {
        AppendKeepsDistinct(list, tokens[i]);
        list := list + [tokens[i]];
      }
    }
    assert tokens[..|tokens|] == tokens;
  }

  /** The duplicate scan of the in handler: read every entry as a number and compare. */
  method ListedByNumber(text: string, n: int) returns (drop: bool)
    ensures drop <==> n in Numbers(text)
  {
    drop := false;
    var list := GetArrayListFromString(text);
    for i := 0 to |list|
      invariant drop <==> exists j :: 0 <= j < i && ParseLong(list[j]) == n
    {
      if ParseLong(list[i]) == n { drop := true; }
    }
    if drop {
      var j :| 0 <= j < |list| && ParseLong(list[j]) == n;
      assert list[j] in Tokens(text);
      var k :| 0 <= k < |Tokens(text)| && Tokens(text)[k] == list[j];
      assert Numbers(text)[k] == n;
    }
    if n in Numbers(text) {
      var k :| 0 <= k < |Numbers(text)| && Numbers(text)[k] == n;
      assert Tokens(text)[k] in list;
    }
  }

  /** msg_num_is_in_list: print the number and look the string up. A library that compares the
      addresses of the strings never finds it. */
  method ListedByText(text: string, n: int, byContent: bool) returns (found: bool)
    requires Printed(text)
    ensures found <==> byContent && n in Numbers(text)
  {
    var list := GetArrayListFromString(text);
    found := byContent && PrintLong(n) in list;
    NumericAndTextualTestsAgree(text, n);
  }

  /** The text of a non-empty list. */
  function Joined(list: seq<int>): string
    requires list != []
  {
    var n := |list| - 1;
    if n == 0 then PrintLong(list[0]) else Joined(list[..n]) + "," + PrintLong(list[n])
  }

  /** Printing a list and reading it again gives the same numbers. */
  lemma {:induction false} JoinedRoundTrip(list: seq<int>)
    requires list != []
    ensures Numbers(Joined(list)) == list && Printed(Joined(list))
  {
    var n := |list| - 1;
    if n == 0 {
      AppendNumber("", list[0]);
    } else {
      JoinedRoundTrip(list[..n]);
      AppendNumber(Joined(list[..n]), list[n]);
      assert list == list[..n] + [list[n]];
    }
  }

  /** sandesha2_utils_array_list_to_string for longs: no text for an empty list. */
  method ArrayListToString(list: seq<int>) returns (text: Option<string>)
    ensures text == if list == [] then None else Some(Joined(list))
  {
    if |list| == 0 { return None; }
    var s := PrintLong(list[0]);
    for i := 1 to |list|
      invariant s == Joined(list[..i])
    {
      assert list[..i + 1][..i] == list[..i];
      s := s + "," + PrintLong(list[i]);
    }
    assert list[..|list|] == list;
    text := Some(s);
  }
}
