/**
  The format of the configuration file: decimal numbers by the value of their digits, what atoi and
  the line reader make of any text, and the one file that is not read as it stands.
 */
module ConfigFormat {
  import opened ConfigText

  // --------------------------------------------------------------------- numbers

  function Ten(n: nat): nat {
    if n == 0 then 1 else 10 * Ten(n - 1)
  }

  function DigitValue(c: char): nat
    requires '0' <= c <= '9'
  {
    c as int - 48
  }

  /** The value of decimal digits, each times its power of ten. */
  function ValueOf(s: string): nat
    requires AllDigits(s)
    decreases |s|
  {
    if s == [] then 0 else DigitValue(s[0]) * Ten(|s| - 1) + ValueOf(s[1..])
  }

  lemma {:induction false} ValueSnoc(s: string, c: char)
    requires AllDigits(s) && IsDigit(c)
    ensures AllDigits(s + [c]) && ValueOf(s + [c]) == 10 * ValueOf(s) + DigitValue(c)
    decreases |s|
  {
    var t := s + [c];
    if s == [] {
      assert t == [c] && t[1..] == [] && Ten(0) == 1;
    } else {
      assert t[1..] == s[1..] + [c] && t[0] == s[0];
      ValueSnoc(s[1..], c);
      TenTimes(DigitValue(s[0]), |s| - 1, |s|);
    }
  }

  lemma TenTimes(a: nat, n: nat, m: nat)
    requires m == n + 1
    ensures a * Ten(m) == 10 * (a * Ten(n))
  {
  }

  /** %d writes the decimal digits of a number, without leading zeros. */
  lemma {:induction false} DigitsExact(n: nat)
    ensures ValueOf(Digits(n)) == n && (|Digits(n)| > 1 ==> Digits(n)[0] != '0')
  {
    if n < 10 {
      assert Digits(n)[1..] == [] && Ten(0) == 1;
    } else {
      DigitsExact(n / 10);
      ValueSnoc(Digits(n / 10), DigitChar(n % 10));
      FirstDigit(n / 10);
    }
  }

  lemma {:induction false} FirstDigit(n: nat)
    requires n > 0
    ensures Digits(n)[0] != '0'
  {
    if n >= 10 { FirstDigit(n / 10); }
  }

  lemma {:induction false} ParseValue(s: string, rest: string, acc: nat)
    requires AllDigits(s) && (rest != [] ==> !IsDigit(rest[0]))
    ensures ParseDigits(s + rest, acc) == acc * Ten(|s|) + ValueOf(s)
    decreases |s|
  {
    if s == [] {
      assert s + rest == rest;
    } else {
      assert (s + rest)[1..] == s[1..] + rest && (s + rest)[0] == s[0];
      var d, t := DigitValue(s[0]), Ten(|s| - 1);
      ParseValue(s[1..], rest, acc * 10 + d);
      Spread(acc, d, t);
    }
  }

  lemma Spread(acc: nat, d: nat, t: nat)
    ensures (acc * 10 + d) * t == acc * (10 * t) + d * t
  {
  }

  predicate AllSpaces(s: string) {
    forall i :: 0 <= i < |s| ==> s[i] in {' ', '\t', '\n', '\r', 11 as char, 12 as char}
  }

  lemma SpacesExact(c: char)
    ensures IsSpace(c) <==> c in {' ', '\t', '\n', '\r', 11 as char, 12 as char}
  {
  }

  lemma {:induction false} AtoiSpaces(spaces: string, s: string)
    requires AllSpaces(spaces)
    ensures Atoi(spaces + s) == Atoi(s)
    decreases |spaces|
  {
    if spaces == [] {
      assert spaces + s == s;
    } else {
      SpacesExact(spaces[0]);
      assert (spaces + s)[0] == spaces[0] && (spaces + s)[1..] == spaces[1..] + s;
      AtoiSpaces(spaces[1..], s);
    }
  }

  /** atoi on any text: blanks, at most one sign, and the longest run of digits that follows; the rest
      does not matter. */
  lemma AtoiExact(spaces: string, sign: string, digits: string, rest: string)
    requires AllSpaces(spaces) && sign in {"", "-", "+"} && AllDigits(digits) && (rest != [] ==> !IsDigit(rest[0]))
    requires sign == "" && digits == "" && rest != [] ==> !IsSpace(rest[0]) && rest[0] != '-' && rest[0] != '+'
    ensures Atoi(spaces + (sign + (digits + rest))) == if sign == "-" then 0 - (ValueOf(digits) as int) else ValueOf(digits)
  {
    var t := digits + rest;
    AtoiSpaces(spaces, sign + t);
    ParseValue(digits, rest, 0);
    if sign == "" {
      assert sign + t == t;
      if digits != [] { assert t[0] == digits[0] && IsDigit(t[0]); }
    } else {
      assert (sign + t)[0] == sign[0] && (sign + t)[1..] == t;
    }
  }

  // ------------------------------------------------------------------------ lines

  /** fgets takes a line with its newline, but no more than 2047 characters. */
  lemma FgetsExact(s: string)
    requires s != []
    ensures var n := FgetsLength(s);
            && n <= 2047 && (forall k :: 0 <= k < n - 1 ==> s[k] != '\n') && (n == |s| || n == 2047 || s[n - 1] == '\n')
  {
  }

  /** A line with a '=', however it came to be, gives the text between the first '=' and the newline to
      every item named by the text before it. */
  lemma LineRead(name: string, val: string, rest: string, items: seq<Item>, defaults: int -> string)
    requires Lacks(name, '=') && Lacks(name, '\n') && Lacks(val, '\n') && |name| + |val| + 2 <= 2047
    ensures Load(name + "=" + val + "\n" + rest, items, defaults) == Load(rest, Apply(items, name, val, 0, defaults), defaults)
  {
    var line := name + "=" + val + "\n";
    var text := line + rest;
    LineTaken(name, val, rest);
    assert text[..|line|] == line && text[|line|..] == rest;
    ValueTaken(name, val);
  }

  lemma LineTaken(name: string, val: string, rest: string)
    requires Lacks(name, '\n') && Lacks(val, '\n') && |name| + |val| + 2 <= 2047
    ensures FgetsLength(name + "=" + val + "\n" + rest) == |name| + |val| + 2
  {
    var text, n := name + "=" + val + "\n" + rest, |name| + |val| + 1;
    forall k | 0 <= k < n ensures text[k] != '\n' {
      if k < |name| { assert text[k] == name[k]; }
      else if k > |name| { assert text[k] == val[k - |name| - 1]; }
    }
    assert text[n] == '\n';
    IndexIs(text, '\n', n, 0);
  }

  lemma ValueTaken(name: string, val: string)
    requires Lacks(name, '=')
    ensures var line := name + "=" + val + "\n";
            IndexOf(line, '=', 0) == |name| && line[..|name|] == name && line[|name| + 1..|line| - 1] == val
  {
    var line := name + "=" + val + "\n";
    forall k | 0 <= k < |name| ensures line[k] != '=' { assert line[k] == name[k]; }
    assert line[|name|] == '=';
    IndexIs(line, '=', |name|, 0);
  }

  lemma {:induction false} IndexNone(s: string, c: char, from: nat)
    requires from <= |s| && forall k :: from <= k < |s| ==> s[k] != c
    ensures IndexOf(s, c, from) == |s|
    decreases |s| - from
  {
    if from < |s| { IndexNone(s, c, from + 1); }
  }

  /** A line without a '=' is skipped. */
  lemma LineSkipped(line: string, rest: string, items: seq<Item>, defaults: int -> string)
    requires Lacks(line, '=') && Lacks(line, '\n') && |line| + 1 <= 2047
    ensures Load(line + "\n" + rest, items, defaults) == Load(rest, items, defaults)
  {
    var text, n := line + "\n" + rest, |line| + 1;
    forall k | 0 <= k < |line| ensures text[k] != '\n' { assert text[k] == line[k]; }
    IndexIs(text, '\n', |line|, 0);
    assert text[..n] == line + "\n" && text[n..] == rest;
    IndexNone(line + "\n", '=', 0);
  }

  /** A last line without a newline loses the last character of its value. */
  lemma LastLine(name: string, val: string, items: seq<Item>, defaults: int -> string)
    requires Lacks(name, '=') && Lacks(name, '\n') && Lacks(val, '\n') && |name| + |val| + 1 <= 2047
    ensures Load(name + "=" + val, items, defaults) ==
            Apply(items, name, if val == "" then "" else val[..|val| - 1], 0, defaults)
  {
    var text := name + "=" + val;
    forall k | 0 <= k < |text| ensures text[k] != '\n' {
      if k < |name| { assert text[k] == name[k]; }
      else if k > |name| { assert text[k] == val[k - |name| - 1]; }
    }
    IndexNone(text, '\n', 0);
    assert text[..|text|] == text && text[|text|..] == [];
    forall k | 0 <= k < |name| ensures text[k] != '=' { assert text[k] == name[k]; }
    assert text[|name|] == '=';
    IndexIs(text, '=', |name|, 0);
    assert text[..|name|] == name;
    if val != "" { assert text[|name| + 1..|text| - 1] == val[..|val| - 1]; }
  }

  // ----------------------------------------------------------------------- items

  /** What an item takes from a value: a text up to its buffer less one character, or a number. */
  lemma ReadExact(i: Item, val: string)
    ensures var r := Read(i, val);
            && r.name == i.name && r.kind == i.kind
            && (match i.kind
                case TextItem(maxlen) =>
                  r.value.Text? && r.value.s <= val && (maxlen > 0 ==> |r.value.s| == if |val| < maxlen then |val| else maxlen - 1)
                case _ => r.value == Number(Atoi(val)))
  {
  }

  /** Unless it is the video mode, every item of the name takes the value and no other item changes. */
  lemma {:induction false} ApplyEvery(items: seq<Item>, key: string, val: string, from: nat, defaults: int -> string, k: nat)
    requires from <= |items| && k < |items| && forall j :: 0 <= j < |items| && items[j].name == key ==> items[j].kind != Video
    ensures Apply(items, key, val, from, defaults)[k] ==
            if from <= k && items[k].name == key then Read(items[k], val) else items[k]
    decreases |items| - from
  {
    if from < |items| {
      var next := if items[from].name == key then Store(items, from, val, defaults) else items;
      assert forall j :: 0 <= j < |items| ==> next[j].name == items[j].name && next[j].kind == items[j].kind;
      ApplyEvery(next, key, val, from + 1, defaults, k);
    }
  }
}
