/** Strings ended by a zero byte, and the scans of util/str.c over them. */
module CStrings {
  import opened Options

  /** The number of characters before the terminator. */
  function StrLen(s: string): (n: nat)
    ensures n <= |s|
  {
    if s == "" || s[0] == '\0' then 0 else 1 + StrLen(s[1..])
  }

  function CStr(s: string): string {
    s[..StrLen(s)]
  }

  predicate Terminated(s: string) {
    StrLen(s) < |s|
  }

  lemma {:induction false} StrLenIs(s: string, n: nat)
    requires n < |s| && s[n] == '\0' && forall k :: 0 <= k < n ==> s[k] != '\0'
    ensures StrLen(s) == n
    decreases n
  {
    if n > 0 {
      StrLenIs(s[1..], n - 1);
    }
  }

  lemma {:induction false} StrLenZero(s: string)
    ensures forall k :: 0 <= k < StrLen(s) ==> s[k] != '\0'
    ensures StrLen(s) < |s| ==> s[StrLen(s)] == '\0'
    decreases |s|
  {
    if s != "" && s[0] != '\0' {
      StrLenZero(s[1..]);
      forall k | 0 <= k < StrLen(s) ensures s[k] != '\0' {
        assert k > 0 ==> s[k] == s[1..][k - 1];
      }
    }
  }

  /** The string at a later pointer is the rest of the string. */
  lemma CStrAt(s: string, i: nat)
    requires Terminated(s) && i <= StrLen(s)
    ensures CStr(s[i..]) == CStr(s)[i..] && Terminated(s[i..])
  {
    StrLenZero(s);
    StrLenIs(s[i..], StrLen(s) - i);
  }

  // ---- Lexemes --------------------------------------------------------------------------------

  /** The longest prefix without the separator. */
  function Lexeme(text: string, sep: char): (r: string)
    ensures |r| <= |text| && r == text[..|r|]
    ensures sep !in r
    ensures |r| < |text| ==> text[|r|] == sep
  {
    if text == "" || text[0] == sep then "" else [text[0]] + Lexeme(text[1..], sep)
  }

  /** The text without its leading separators. */
  function Trim(text: string, sep: char): (r: string)
    ensures |r| <= |text| && r == text[|text| - |r|..]
    ensures forall k :: 0 <= k < |text| - |r| ==> text[k] == sep
    ensures r != "" ==> r[0] != sep
  {
    if text != "" && text[0] == sep then Trim(text[1..], sep) else text
  }

  /** What follows the first lexeme and its separators. */
  function Next(text: string, sep: char): (r: string)
    ensures |r| <= |text| && r == text[|text| - |r|..]
  {
    Trim(text[|Lexeme(text, sep)|..], sep)
  }

  /** `strfle`: the index of the last character of the first lexeme, or 0 if the text starts with the separator. */
  method Strfle(a: array<char>, sep: char) returns (p: int)
    requires Terminated(a[..])
    ensures var text := CStr(a[..]);
            p == if text != "" && text[0] == sep then 0 else |Lexeme(text, sep)| - 1
  {
    ghost var text := CStr(a[..]);
    StrLenZero(a[..]);
    var cur := 0;
    while a[cur] != '\0'
      invariant 0 <= cur <= |text| && sep !in text[..cur]
      decreases |text| - cur
    {
      assert a[cur] == a[..][cur] == text[cur];
      if a[cur] == sep {
        LexemeIs(text, sep, cur);
        if cur == 0 {
          return 0;
        }
        return cur - 1;
      }
      assert text[..cur + 1] == text[..cur] + [text[cur]];
      cur := cur + 1;
    }
    assert a[..][cur] == '\0';
    LexemeIs(text, sep, cur);
    p := cur - 1;
  }

  lemma {:induction false} LexemeIs(text: string, sep: char, n: nat)
    requires n <= |text| && sep !in text[..n] && (n < |text| ==> text[n] == sep)
    ensures |Lexeme(text, sep)| == n
    decreases n
  {
    if n > 0 {
      assert text[0] == text[..n][0];
      assert text[1..][..n - 1] == text[..n][1..];
      LexemeIs(text[1..], sep, n - 1);
    }
  }

  /** `strfnl`: the index of the second lexeme, if there is one. */
  method Strfnl(a: array<char>, sep: char) returns (p: Option<nat>)
    requires Terminated(a[..])
    ensures var text := CStr(a[..]);
            p == if Next(text, sep) == "" then None else Some(|text| - |Next(text, sep)|)
  {
    hide StrLen, Next, Lexeme;
    ghost var text := CStr(a[..]);
    StrLenZero(a[..]);
    var ended := false;
    var cur := 0;
    while a[cur] != '\0'
      invariant 0 <= cur <= |text|
      invariant !ended ==> sep !in text[..cur]
      invariant ended ==> |Lexeme(text, sep)| < cur
      invariant ended ==> forall k :: |Lexeme(text, sep)| <= k < cur ==> text[k] == sep
      decreases |text| - cur
    {
      assert a[cur] == a[..][cur] == text[cur];
      if a[cur] == sep {
        if !ended {
          LexemeIs(text, sep, cur);
        }
        ended := true;
      } else if ended {
        NextIs(text, sep, cur);
        return Some(cur);
      } else {
        assert text[..cur + 1] == text[..cur] + [text[cur]];
      }
      cur := cur + 1;
    }
    assert a[..][cur] == '\0';
    if !ended {
      LexemeIs(text, sep, cur);
    }
    NextIs(text, sep, cur);
    p := None;
  }

  lemma {:induction false} TrimIs(text: string, sep: char, n: nat)
    requires n <= |text| && (forall k :: 0 <= k < n ==> text[k] == sep) && (n < |text| ==> text[n] != sep)
    ensures |Trim(text, sep)| == |text| - n
    decreases n
  {
    if n > 0 {
      TrimIs(text[1..], sep, n - 1);
    }
  }

  lemma NextIs(text: string, sep: char, n: nat)
    requires |Lexeme(text, sep)| <= n <= |text|
    requires forall k :: |Lexeme(text, sep)| <= k < n ==> text[k] == sep
    requires n < |text| ==> text[n] != sep
    ensures |Next(text, sep)| == |text| - n
  {
    TrimIs(text[|Lexeme(text, sep)|..], sep, n - |Lexeme(text, sep)|);
  }

  /** `streq`: equality of the two strings. */
  method Streq(a: array<char>, b: string) returns (r: bool)
    requires Terminated(a[..]) && '\0' !in b
    ensures r <==> CStr(a[..]) == b
  {
    ghost var text := CStr(a[..]);
    StrLenZero(a[..]);
    var i := 0;
    while a[i] != '\0' && i < |b|
      invariant 0 <= i <= |text| && i <= |b| && text[..i] == b[..i]
      decreases |text| - i
    {
      assert a[i] == a[..][i] == text[i];
      if a[i] != b[i] {
        return false;
      }
      assert text[..i + 1] == text[..i] + [text[i]] && b[..i + 1] == b[..i] + [b[i]];
      i := i + 1;
    }
    assert a[i] == a[..][i];
    assert text[..|text|] == text && b[..|b|] == b;
    r := a[i] == '\0' && i == |b|;
  }
}
