/** The handful of Go string helpers the planners rely on. */
module Text {

  /** `unicode.IsSpace`. */
  predicate IsSpace(c: char) {
    || '\t' <= c <= '\r' || c == ' '
    || c == '\U{0085}' || c == '\U{00A0}' || c == '\U{1680}'
    || '\U{2000}' <= c <= '\U{200a}'
    || c == '\U{2028}' || c == '\U{2029}' || c == '\U{202f}' || c == '\U{205f}' || c == '\U{3000}'
  }

  /** `strings.TrimSpace`. */
  function TrimSpace(s: string): string
    decreases |s|
  {
    if s == "" then ""
    else if IsSpace(s[0]) then TrimSpace(s[1..])
    else if IsSpace(s[|s| - 1]) then TrimSpace(s[..|s| - 1])
    else s
  }

  /** `strings.ToLower` on ASCII text. */
  function ToLower(s: string): (r: string)
    ensures |r| == |s|
  {
    if s == "" then ""
    else [if 'A' <= s[0] <= 'Z' then (s[0] as int + 32) as char else s[0]] + ToLower(s[1..])
  }

  /** Lower-cased protocol name; a blank one means tcp. */
  function NormalizeProto(p: string): (r: string)
    ensures r != ""
  {
    var q := ToLower(TrimSpace(p));
    if q == "" then "tcp" else q
  }

  function Digits(n: nat): (r: string)
    ensures |r| >= 1
    ensures n < 10 ==> |r| == 1
  {
    var d := [(48 + n % 10) as char];
    if n < 10 then d else Digits(n / 10) + d
  }

  /** `strconv.Itoa`. */
  function Itoa(n: int): (r: string)
    ensures r != ""
  {
    if n < 0 then "-" + Digits(-n) else Digits(n)
  }

  lemma {:induction false} DigitsAreDigits(n: nat)
    ensures forall c :: c in Digits(n) ==> '0' <= c <= '9'
  {
    if n >= 10 {
      DigitsAreDigits(n / 10);
    }
  }

  lemma SplitAtFirst(k: string, x: string, l: string, y: string, sep: char)
    requires k + [sep] + x == l + [sep] + y && sep !in k && sep !in l
    ensures k == l && x == y
  {
    var s, t := k + [sep] + x, l + [sep] + y;
    assert s[|k|] == sep && t[|l|] == sep;
    assert forall i :: 0 <= i < |k| ==> s[i] == k[i] != sep;
    assert forall i :: 0 <= i < |l| ==> t[i] == l[i] != sep;
    assert |k| == |l|;
    assert s[..|k|] == k && t[..|l|] == l && s[|k| + 1..] == x && t[|l| + 1..] == y;
  }

  lemma SplitAtLast(k: string, x: string, l: string, y: string, sep: char)
    requires k + [sep] + x == l + [sep] + y && sep !in x && sep !in y
    ensures k == l && x == y
  {
    var s, t := k + [sep] + x, l + [sep] + y;
    assert s[|k|] == sep && t[|l|] == sep;
    assert forall i :: |k| < i < |s| ==> s[i] == x[i - |k| - 1];
    assert forall i :: |l| < i < |t| ==> t[i] == y[i - |l| - 1];
    assert |k| == |l|;
    assert s[..|k|] == k && t[..|l|] == l && s[|k| + 1..] == x && t[|l| + 1..] == y;
  }

  /** Reading a decimal numeral. */
  function Value(s: string): int {
    if s == "" then 0 else 10 * Value(s[..|s| - 1]) + (s[|s| - 1] as int - '0' as int)
  }

  /** The printed digits are the number's decimal numeral, without leading zeros. */
  lemma {:induction false} DigitsAreTheNumeral(n: nat)
    ensures Value(Digits(n)) == n && (n > 0 ==> Digits(n)[0] != '0')
  {
    if n >= 10 {
      DigitsAreTheNumeral(n / 10);
      assert Digits(n)[..|Digits(n)| - 1] == Digits(n / 10);
    } else {
      assert Digits(n)[..0] == "";
    }
  }

  lemma ItoaIsTheNumeral(n: int)
    ensures n >= 0 ==> Value(Itoa(n)) == n
    ensures n < 0 ==> Itoa(n)[0] == '-' && Value(Itoa(n)[1..]) == -n
  {
    DigitsAreTheNumeral(if n < 0 then -n else n);
    if n < 0 {
      assert Itoa(n)[1..] == Digits(-n);
    }
  }

  lemma {:induction false} DigitsInjective(a: nat, b: nat)
    requires Digits(a) == Digits(b)
    ensures a == b
  {
    var x, y := Digits(a), Digits(b);
    assert x[|x| - 1] == (48 + a % 10) as char && y[|y| - 1] == (48 + b % 10) as char;
    assert a % 10 == b % 10;
    if a >= 10 {
      assert |y| == |Digits(a / 10)| + 1;
      assert Digits(a / 10) == x[..|x| - 1] && Digits(b / 10) == y[..|y| - 1];
      DigitsInjective(a / 10, b / 10);
    }
  }

  lemma ItoaSign(n: int)
    ensures Itoa(n)[0] == '-' <==> n < 0
  {
    if n >= 0 {
      DigitsAreDigits(n);
      assert Digits(n)[0] in Digits(n);
    }
  }

  /** Distinct port numbers print differently. */
  lemma ItoaInjective(a: int, b: int)
    requires Itoa(a) == Itoa(b)
    ensures a == b
  {
    ItoaSign(a);
    ItoaSign(b);
    if a < 0 {
      assert Digits(-a) == Itoa(a)[1..] && Digits(-b) == Itoa(b)[1..];
      DigitsInjective(-a, -b);
    } else {
      DigitsInjective(a, b);
    }
  }

  predicate Trimmed(s: string) {
    s != "" ==> !IsSpace(s[0]) && !IsSpace(s[|s| - 1])
  }

  lemma {:induction false} TrimSpaceTrims(s: string)
    ensures Trimmed(TrimSpace(s))
    decreases |s|
  {
    if s != "" && IsSpace(s[0]) {
      TrimSpaceTrims(s[1..]);
    } else if s != "" && IsSpace(s[|s| - 1]) {
      TrimSpaceTrims(s[..|s| - 1]);
    }
  }

  lemma {:induction false} ToLowerAt(s: string, i: nat)
    requires i < |s|
    ensures ToLower(s)[i] == if 'A' <= s[i] <= 'Z' then (s[i] as int + 32) as char else s[i]
  {
    if i > 0 {
      ToLowerAt(s[1..], i - 1);
    }
  }

  /** Lower-casing changes no letter of a text that is lower-case already. */
  lemma ToLowerTwice(t: string)
    ensures ToLower(ToLower(t)) == ToLower(t)
  {
    var q := ToLower(t);
    forall i | 0 <= i < |q| ensures ToLower(q)[i] == q[i] {
      ToLowerAt(q, i);
      ToLowerAt(t, i);
    }
  }

  lemma TrimmedStays(t: string)
    requires t != "" && !IsSpace(t[0]) && !IsSpace(t[|t| - 1])
    ensures TrimSpace(ToLower(t)) == ToLower(t)
  {
    ToLowerAt(t, 0);
    ToLowerAt(t, |t| - 1);
  }

  /** Normalizing a protocol twice is normalizing it once. */
  lemma NormalizeIdempotent(p: string)
    ensures NormalizeProto(NormalizeProto(p)) == NormalizeProto(p)
  {
    var t := TrimSpace(p);
    TrimSpaceTrims(p);
    if t == "" {
      assert NormalizeProto(p) == "tcp";
      TrimmedStays("tcp");
      ToLowerTwice("tcp");
      LowerTcp();
    } else {
      TrimmedStays(t);
      ToLowerTwice(t);
    }
  }

  lemma LowerTcp()
    ensures ToLower("tcp") == "tcp"
  {
    forall i | 0 <= i < 3 ensures ToLower("tcp")[i] == "tcp"[i] {
      ToLowerAt("tcp", i);
    }
  }

  // ---- What a protocol text names, without trimming or lower-casing it --------------------------------------------------

  predicate Spaces(s: string) {
    forall i :: 0 <= i < |s| ==> IsSpace(s[i])
  }

  /** The word is what stands between the white space. */
  predicate Surrounds(text: string, pre: string, word: string, post: string) {
    text == pre + word + post && Spaces(pre) && Spaces(post) && Trimmed(word)
  }

  /** The second text is the first with its capital letters made small. */
  predicate SameLetters(word: string, small: string) {
    |word| == |small| && forall i :: 0 <= i < |word| ==> small[i] == if 'A' <= word[i] <= 'Z' then (word[i] as int + 32) as char else word[i]
  }

  /** The protocol a policy or service means by a text: the word in it in small letters, or tcp when there is none. */
  ghost predicate Names(text: string, proto: string) {
    exists pre, word, post :: Surrounds(text, pre, word, post) && if word == "" then proto == "tcp" else SameLetters(word, proto)
  }

  /** Which code points are white space. */
  lemma SpaceCodes(c: char)
    ensures IsSpace(c) <==> c as int in {9, 10, 11, 12, 13, 32, 0x85, 0xA0, 0x1680, 0x2000, 0x2001, 0x2002, 0x2003, 0x2004, 0x2005,
                                         0x2006, 0x2007, 0x2008, 0x2009, 0x200A, 0x2028, 0x2029, 0x202F, 0x205F, 0x3000}
  {
  }

  /** Trimming takes off exactly the white space around the word. */
  lemma {:induction false} TrimExactly(pre: string, word: string, post: string)
    requires Spaces(pre) && Spaces(post) && Trimmed(word)
    ensures TrimSpace(pre + word + post) == word
    decreases |pre| + |post|
  {
    var s := pre + word + post;
    if pre != "" {
      assert s[1..] == pre[1..] + word + post;
      TrimExactly(pre[1..], word, post);
    } else if post == "" {
      assert s == word;
    } else if word == "" {
      assert s[1..] == pre + word + post[1..];
      TrimExactly(pre, word, post[1..]);
    } else {
      assert s[..|s| - 1] == pre + word + post[..|post| - 1];
      TrimExactly(pre, word, post[..|post| - 1]);
    }
  }

  lemma {:induction false} TrimSplits(s: string) returns (pre: string, post: string)
    ensures Surrounds(s, pre, TrimSpace(s), post)
    decreases |s|
  {
    TrimSpaceTrims(s);
    if s != "" && IsSpace(s[0]) {
      pre, post := TrimSplits(s[1..]);
      SpaceBefore(s, pre, TrimSpace(s), post);
      pre := [s[0]] + pre;
    } else if s != "" && IsSpace(s[|s| - 1]) {
      pre, post := TrimSplits(s[..|s| - 1]);
      SpaceAfter(s, pre, TrimSpace(s), post);
      post := post + [s[|s| - 1]];
    } else {
      pre, post := "", "";
      assert pre + s + post == s;
    }
  }

  lemma SpaceBefore(s: string, pre: string, word: string, post: string)
    requires s != "" && IsSpace(s[0]) && Surrounds(s[1..], pre, word, post)
    ensures Surrounds(s, [s[0]] + pre, word, post)
  {
    assert s == [s[0]] + s[1..];
    assert [s[0]] + (pre + word + post) == [s[0]] + pre + word + post;
  }

  lemma SpaceAfter(s: string, pre: string, word: string, post: string)
    requires s != "" && IsSpace(s[|s| - 1]) && Surrounds(s[..|s| - 1], pre, word, post)
    ensures Surrounds(s, pre, word, post + [s[|s| - 1]])
  {
    assert s == s[..|s| - 1] + [s[|s| - 1]];
    assert (pre + word + post) + [s[|s| - 1]] == pre + word + (post + [s[|s| - 1]]);
  }

  lemma LowerExactly(word: string, small: string)
    ensures ToLower(word) == small <==> SameLetters(word, small)
  {
    forall i | 0 <= i < |word| ensures ToLower(word)[i] == if 'A' <= word[i] <= 'Z' then (word[i] as int + 32) as char else word[i] {
      ToLowerAt(word, i);
    }
  }

  /** The normalized protocol is the one the text names, and no other. */
  lemma NormalizeExactly(text: string, proto: string)
    ensures NormalizeProto(text) == proto <==> Names(text, proto)
  {
    var pre, post := TrimSplits(text);
    var word := TrimSpace(text);
    LowerExactly(word, proto);
    if NormalizeProto(text) == proto {
      assert Surrounds(text, pre, word, post);
    }
    if pre', word', post' :| Surrounds(text, pre', word', post') && if word' == "" then proto == "tcp" else SameLetters(word', proto) {
      TrimExactly(pre', word', post');
    }
  }

  lemma {:induction false} ToLowerConcat(a: string, b: string)
    ensures ToLower(a + b) == ToLower(a) + ToLower(b)
  {
    if a == "" {
      assert a + b == b;
    } else {
      assert (a + b)[1..] == a[1..] + b;
      ToLowerConcat(a[1..], b);
    }
  }

  lemma LoweredSpaces(s: string)
    requires Spaces(s)
    ensures Spaces(ToLower(s))
  {
    forall i | 0 <= i < |s| ensures IsSpace(ToLower(s)[i]) {
      ToLowerAt(s, i);
    }
  }

  /** Lower-casing a text first names nothing else. */
  lemma LowerNamesSame(text: string)
    ensures NormalizeProto(ToLower(text)) == NormalizeProto(text)
  {
    var pre, post := TrimSplits(text);
    var word := TrimSpace(text);
    ToLowerConcat(pre + word, post);
    ToLowerConcat(pre, word);
    LoweredSpaces(pre);
    LoweredSpaces(post);
    LoweredTrims(word);
    TrimExactly(ToLower(pre), ToLower(word), ToLower(post));
    ToLowerTwice(word);
  }

  lemma LoweredTrims(word: string)
    requires Trimmed(word)
    ensures Trimmed(ToLower(word))
  {
    if word != "" {
      ToLowerAt(word, 0);
      ToLowerAt(word, |word| - 1);
    }
  }
}
