/**
  The loader's configuration file: one `name=value` line per registered item, written in
  registration order and read back line by line.
 */
module ConfigText {

  /** The size of the line buffer; fgets reads one character less. */
  const MAXIMUM_CONFIG_LENGTH: nat := 2048

  datatype Value = Number(n: int) | Text(s: string)

  /** A check box, the video mode, or a text buffer of `maxlen` characters. */
  datatype Kind = Check | Video | TextItem(maxlen: nat)

  datatype Item = Item(name: string, kind: Kind, value: Value)

  /** The text buffer that a change of the video mode resets. */
  const VIDEO_PARAMETER: string := "VideoParameter"

  // ---------------------------------------------------------------- decimal text

  predicate IsDigit(c: char) { '0' <= c <= '9' }

  predicate AllDigits(s: string) { forall i :: 0 <= i < |s| ==> IsDigit(s[i]) }

  function DigitChar(d: nat): char
    requires d < 10
  {
    ('0' as int + d) as char
  }

  function Digits(n: nat): (s: string)
    ensures s != [] && AllDigits(s)
  {
    if n < 10 then [DigitChar(n)] else Digits(n / 10) + [DigitChar(n % 10)]
  }

  /** printf's %d */
  function Show(n: int): string {
    if n < 0 then "-" + Digits(-n) else Digits(n)
  }

  function ParseDigits(s: string, acc: nat): nat
    decreases |s|
  {
    if s == [] || !IsDigit(s[0]) then acc
    else ParseDigits(s[1..], acc * 10 + (s[0] as int - '0' as int))
  }

  predicate IsSpace(c: char) {
    c == ' ' || '\t' <= c <= '\r'
  }

  /** atoi on the C locale's blanks, sign and digits. */
  function Atoi(s: string): int
    decreases |s|
  {
    if s == [] then 0
    else if IsSpace(s[0]) then Atoi(s[1..])
    else if s[0] == '-' then 0 - (ParseDigits(s[1..], 0) as int)
    else if s[0] == '+' then ParseDigits(s[1..], 0)
    else ParseDigits(s, 0)
  }

  lemma {:induction false} ParseSnoc(s: string, c: char, acc: nat)
    requires AllDigits(s) && IsDigit(c)
    ensures ParseDigits(s + [c], acc) == ParseDigits(s, acc) * 10 + (c as int - '0' as int)
    decreases |s|
  {
    if s == [] {
      assert [c][1..] == [] && [] + [c] == [c];
    } else {
      assert (s + [c])[1..] == s[1..] + [c];
      ParseSnoc(s[1..], c, acc * 10 + (s[0] as int - '0' as int));
    }
  }

  lemma {:induction false} ParseShown(n: nat)
    ensures ParseDigits(Digits(n), 0) == n
  {
    if n >= 10 {
      ParseShown(n / 10);
      ParseSnoc(Digits(n / 10), DigitChar(n % 10), 0);
    } else {
      assert Digits(n)[1..] == [];
    }
  }

  /** atoi undoes %d. */
  lemma AtoiShow(n: int)
    ensures Atoi(Show(n)) == n
  {
    if n < 0 {
      assert Show(n)[1..] == Digits(-n);
      ParseShown(-n);
    } else {
      ParseShown(n);
      assert IsDigit(Show(n)[0]);
    }
  }

  // --------------------------------------------------------------- writing

  function ShowValue(v: Value): string {
    match v
    case Number(n) => Show(n)
    case Text(s) => s
  }

  function Line(i: Item): string {
    i.name + "=" + ShowValue(i.value) + "\n"
  }

  function Save(items: seq<Item>): string {
    if items == [] then "" else Line(items[0]) + Save(items[1..])
  }

  // --------------------------------------------------------------- reading

  function IndexOf(s: string, c: char, from: nat): (i: nat)
    requires from <= |s|
    ensures from <= i <= |s| && (forall k :: from <= k < i ==> s[k] != c) && (i < |s| ==> s[i] == c)
    decreases |s| - from
  {
    if from == |s| || s[from] == c then from else IndexOf(s, c, from + 1)
  }

  /** The length of what fgets takes from a non-empty rest of the file. */
  function FgetsLength(s: string): (n: nat)
    requires s != []
    ensures 0 < n <= |s|
  {
    var i := IndexOf(s, '\n', 0);
    var n := if i < |s| then i + 1 else i;
    if n > MAXIMUM_CONFIG_LENGTH - 1 then MAXIMUM_CONFIG_LENGTH - 1 else n
  }

  /** strncpy into a buffer of `maxlen`, with the last place forced to NUL. */
  function Truncated(s: string, maxlen: nat): string {
    if maxlen > 0 && |s| > maxlen - 1 then s[..maxlen - 1] else s
  }

  /** readData */
  function Read(i: Item, val: string): Item {
    match i.kind
    case TextItem(maxlen) => i.(value := Text(Truncated(val, maxlen)))
    case _ => i.(value := Number(Atoi(val)))
  }

  /** configureVideoParameter writes the default for the mode into its buffer. */
  function Reset(items: seq<Item>, text: string): (r: seq<Item>)
    ensures |r| == |items|
    ensures forall k :: 0 <= k < |items| ==> r[k] == if items[k].name == VIDEO_PARAMETER then items[k].(value := Text(text)) else items[k]
  {
    seq(|items|, k requires 0 <= k < |items| => if items[k].name == VIDEO_PARAMETER then items[k].(value := Text(text)) else items[k])
  }

  /** Item `k` takes a value; the video mode also resets the video parameter. */
  function Store(items: seq<Item>, k: nat, val: string, defaults: int -> string): (r: seq<Item>)
    requires k < |items|
    ensures |r| == |items|
  {
    var r := items[k := Read(items[k], val)];
    if items[k].kind == Video then Reset(r, defaults(Atoi(val))) else r
  }

  /** The loop over the items for one key, from item `k` on. */
  function Apply(items: seq<Item>, key: string, val: string, k: nat, defaults: int -> string): (r: seq<Item>)
    requires k <= |items|
    ensures |r| == |items|
    decreases |items| - k
  {
    if k == |items| then items
    else Apply(if items[k].name == key then Store(items, k, val, defaults) else items, key, val, k + 1, defaults)
  }

  /** One line: everything before the first '=' is the key, and the last character is dropped. */
  function ApplyLine(items: seq<Item>, line: string, defaults: int -> string): (r: seq<Item>)
    ensures |r| == |items|
  {
    var e := IndexOf(line, '=', 0);
    if e == |line| then items
    else Apply(items, line[..e], if e + 1 < |line| then line[e + 1..|line| - 1] else "", 0, defaults)
  }

  function Load(text: string, items: seq<Item>, defaults: int -> string): (r: seq<Item>)
    ensures |r| == |items|
    decreases |text|
  {
    if text == [] then items
    else
      var n := FgetsLength(text);
      Load(text[n..], ApplyLine(items, text[..n], defaults), defaults)
  }

  /** writeData */
  method WriteData(i: Item) returns (line: string)
    ensures line == Line(i)
  {
    line := i.name + "=" + ShowValue(i.value) + "\n";
  }

  lemma SaveNext(text: string, items: seq<Item>, i: nat)
    requires i < |items|
    ensures text + Save(items[i..]) == (text + Line(items[i])) + Save(items[i + 1..])
  {
    assert items[i..][0] == items[i] && items[i..][1..] == items[i + 1..];
  }

  method SaveConfiguration(items: seq<Item>) returns (text: string)
    ensures text == Save(items)
  {
    text := "";
    var i := 0;
    assert items[0..] == items && text + Save(items) == Save(items);
    while i < |items|
      invariant 0 <= i <= |items| && text + Save(items[i..]) == Save(items)
    {
      SaveNext(text, items, i);
      var line := WriteData(items[i]);
      text := text + line;
      i := i + 1;
    }
    assert items[i..] == [] && text + "" == text;
  }

  method ApplyToItems(items0: seq<Item>, key: string, val: string, defaults: int -> string) returns (items: seq<Item>)
    ensures items == Apply(items0, key, val, 0, defaults)
  {
    items := items0;
    var i := 0;
    while i < |items|
      invariant 0 <= i <= |items| && Apply(items, key, val, i, defaults) == Apply(items0, key, val, 0, defaults)
    {
      if items[i].name == key {
        items := Store(items, i, val, defaults);
      }
      i := i + 1;
    }
  }

  method LoadConfiguration(text: string, items0: seq<Item>, defaults: int -> string) returns (items: seq<Item>)
    ensures items == Load(text, items0, defaults)
  {
    items := items0;
    var rest := text;
    while rest != []
      invariant Load(rest, items, defaults) == Load(text, items0, defaults)
      decreases |rest|
    {
      var n := FgetsLength(rest);
      var buffer := rest[..n];
      var e := IndexOf(buffer, '=', 0);
      if e < |buffer| {
        items := ApplyToItems(items, buffer[..e], if e + 1 < |buffer| then buffer[e + 1..|buffer| - 1] else "", defaults);
      }
      rest := rest[n..];
    }
  }

  // --------------------------------------------------------------- round trip

  predicate Lacks(s: string, c: char) { forall i :: 0 <= i < |s| ==> s[i] != c }

  /** An item whose line survives: its value suits its kind, fits its buffer and the line buffer. */
  predicate Writable(i: Item) {
    && Lacks(i.name, '=') && Lacks(i.name, '\n')
    && |Line(i)| < MAXIMUM_CONFIG_LENGTH
    && match i.kind
       case TextItem(maxlen) => i.value.Text? && Lacks(i.value.s, '\n') && |i.value.s| < maxlen
       case _ => i.value.Number?
  }

  /** Every value suits the kind of its item. */
  predicate AllTyped(items: seq<Item>) {
    forall i :: 0 <= i < |items| ==> (items[i].kind.TextItem? <==> items[i].value.Text?)
  }

  predicate AllWritable(items: seq<Item>) { forall i :: 0 <= i < |items| ==> Writable(items[i]) }

  predicate DistinctNames(items: seq<Item>) {
    forall i, j :: 0 <= i < j < |items| ==> items[i].name != items[j].name
  }

  /** The same registered items, with any values. */
  predicate SameShape(a: seq<Item>, b: seq<Item>) {
    |a| == |b| && forall i :: 0 <= i < |a| ==> a[i].name == b[i].name && a[i].kind == b[i].kind
  }

  /** The item takes its value back. */
  lemma ReadShown(i: Item, before: Item)
    requires Writable(i) && before.name == i.name && before.kind == i.kind
    ensures Read(before, ShowValue(i.value)) == i
    ensures i.kind == Video ==> Atoi(ShowValue(i.value)) == i.value.n
  {
    if i.value.Number? { AtoiShow(i.value.n); }
  }

  lemma ShownHasNoNewline(v: Value)
    requires v.Text? ==> Lacks(v.s, '\n')
    ensures Lacks(ShowValue(v), '\n')
  {
  }

  /** The first line of a saved file is read as the item it was written from. */
  lemma LineParsed(i: Item, rest: string)
    requires Writable(i)
    ensures var text := Line(i) + rest;
            && FgetsLength(text) == |Line(i)| && text[..|Line(i)|] == Line(i) && text[|Line(i)|..] == rest
            && IndexOf(Line(i), '=', 0) == |i.name|
            && Line(i)[..|i.name|] == i.name
            && Line(i)[|i.name| + 1..|Line(i)| - 1] == ShowValue(i.value)
  {
    var v := ShowValue(i.value);
    ShownHasNoNewline(i.value);
    var text := Line(i) + rest;
    var n := |Line(i)|;
    assert Line(i)[|i.name|] == '=' && Line(i)[n - 1] == '\n';
    forall k | 0 <= k < n - 1 ensures text[k] != '\n' {
      if k < |i.name| { assert text[k] == i.name[k]; }
      else if k > |i.name| { assert text[k] == v[k - |i.name| - 1]; }
    }
    assert text[n - 1] == '\n';
    IndexIs(text, '\n', n - 1, 0);
    forall k | 0 <= k < |i.name| ensures Line(i)[k] != '=' { assert Line(i)[k] == i.name[k]; }
    IndexIs(Line(i), '=', |i.name|, 0);
  }

  lemma {:induction false} IndexIs(s: string, c: char, i: nat, from: nat)
    requires from <= i < |s| && s[i] == c && forall k :: from <= k < i ==> s[k] != c
    ensures IndexOf(s, c, from) == i
    decreases i - from
  {
    if from < i { IndexIs(s, c, i, from + 1); }
  }

  lemma StoreShape(items: seq<Item>, k: nat, val: string, defaults: int -> string)
    requires k < |items|
    ensures SameShape(items, Store(items, k, val, defaults))
  {
  }

  lemma {:induction false} ApplyNone(items: seq<Item>, key: string, val: string, k: nat, defaults: int -> string)
    requires k <= |items| && forall j :: k <= j < |items| ==> items[j].name != key
    ensures Apply(items, key, val, k, defaults) == items
    decreases |items| - k
  {
    if k < |items| { ApplyNone(items, key, val, k + 1, defaults); }
  }

  /** With distinct names a key reaches its item and no other. */
  lemma {:induction false} ApplyOne(items: seq<Item>, i: nat, val: string, k: nat, defaults: int -> string)
    requires k <= i < |items| && DistinctNames(items)
    ensures Apply(items, items[i].name, val, k, defaults) == Store(items, i, val, defaults)
    decreases i - k
  {
    if k < i {
      ApplyOne(items, i, val, k + 1, defaults);
    } else {
      StoreShape(items, i, val, defaults);
      ApplyNone(Store(items, i, val, defaults), items[i].name, val, i + 1, defaults);
    }
  }

  /** Item `k` gets the value it has in `items`. */
  function Restore(st: seq<Item>, items: seq<Item>, k: nat, defaults: int -> string): (r: seq<Item>)
    requires k < |items| == |st|
    ensures |r| == |st|
  {
    var r := st[k := items[k]];
    if items[k].kind == Video && items[k].value.Number? then Reset(r, defaults(items[k].value.n)) else r
  }

  /** What reading the saved lines of items `k`, `k + 1`, ... does. */
  function Replay(st: seq<Item>, items: seq<Item>, k: nat, defaults: int -> string): (r: seq<Item>)
    requires k <= |items| == |st|
    ensures |r| == |st|
    decreases |items| - k
  {
    if k == |items| then st else Replay(Restore(st, items, k, defaults), items, k + 1, defaults)
  }

  lemma RestoreShape(st: seq<Item>, items: seq<Item>, k: nat, defaults: int -> string)
    requires k < |items| && SameShape(items, st)
    ensures SameShape(items, Restore(st, items, k, defaults))
  {
  }

  lemma ShapeDistinct(a: seq<Item>, b: seq<Item>)
    requires SameShape(a, b) && DistinctNames(a)
    ensures DistinctNames(b)
  {
    forall i, j | 0 <= i < j < |b| ensures b[i].name != b[j].name {
      assert a[i].name != a[j].name;
    }
  }

  lemma LineRestores(st: seq<Item>, items: seq<Item>, k: nat, defaults: int -> string)
    requires k < |items| && SameShape(items, st) && DistinctNames(items) && Writable(items[k])
    ensures ApplyLine(st, Line(items[k]), defaults) == Restore(st, items, k, defaults)
  {
    var i := items[k];
    LineParsed(i, "");
    assert Line(i) + "" == Line(i);
    ShapeDistinct(items, st);
    ApplyOne(st, k, ShowValue(i.value), 0, defaults);
    ReadShown(i, st[k]);
  }

  /** Loading a saved file replays the items in registration order. */
  lemma {:induction false} LoadReplays(st: seq<Item>, items: seq<Item>, k: nat, defaults: int -> string)
    requires k <= |items| && SameShape(items, st) && DistinctNames(items) && AllWritable(items)
    ensures Load(Save(items[k..]), st, defaults) == Replay(st, items, k, defaults)
    decreases |items| - k
  {
    if k < |items| {
      var rest := items[k..];
      assert rest[0] == items[k] && rest[1..] == items[k + 1..];
      LineParsed(items[k], Save(items[k + 1..]));
      LineRestores(st, items, k, defaults);
      RestoreShape(st, items, k, defaults);
      LoadReplays(Restore(st, items, k, defaults), items, k + 1, defaults);
    }
  }

  // ------------------------------------------------- the video parameter

  /** The last video mode item behind position `j` and before `k`, or -1 if there is none. */
  function LastVideo(items: seq<Item>, j: int, k: nat): (m: int)
    requires k <= |items|
    ensures m == -1 || (j < m < k && 0 <= m && items[m].kind == Video)
    ensures forall i :: 0 <= i < k && j < i && m < i ==> items[i].kind != Video
  {
    if k == 0 || k - 1 <= j then -1
    else if items[k - 1].kind == Video then k - 1
    else LastVideo(items, j, k - 1)
  }

  /** The value item `j` has once the lines before `k` have been read. */
  function Final(items: seq<Item>, j: nat, k: nat, defaults: int -> string): Item
    requires j < k <= |items|
  {
    var m := LastVideo(items, j, k);
    if items[j].name == VIDEO_PARAMETER && m != -1 && items[m].value.Number?
    then items[j].(value := Text(defaults(items[m].value.n))) else items[j]
  }

  /** No video mode item carries the name of the video parameter. */
  predicate ModesApart(items: seq<Item>) {
    forall i :: 0 <= i < |items| && items[i].kind == Video ==> items[i].name != VIDEO_PARAMETER
  }

  lemma RestoreAt(st: seq<Item>, items: seq<Item>, k: nat, j: nat, defaults: int -> string)
    requires k < |items| && j <= k && SameShape(items, st) && AllTyped(items) && ModesApart(items)
    requires j < k ==> st[j] == Final(items, j, k, defaults)
    ensures Restore(st, items, k, defaults)[j] == Final(items, j, k + 1, defaults)
  {
  }

  lemma ReplayNext(st: seq<Item>, items: seq<Item>, k: nat, j: nat, defaults: int -> string) returns (next: seq<Item>)
    requires k < |items| && j < |items| && SameShape(items, st) && AllTyped(items) && ModesApart(items)
    requires j < k ==> st[j] == Final(items, j, k, defaults)
    ensures SameShape(items, next) && (j < k + 1 ==> next[j] == Final(items, j, k + 1, defaults))
    ensures Replay(st, items, k, defaults) == Replay(next, items, k + 1, defaults)
  {
    next := Restore(st, items, k, defaults);
    RestoreShape(st, items, k, defaults);
    if j <= k { RestoreAt(st, items, k, j, defaults); }
  }

  /** Item by item, what replaying the lines from `k` on leaves. */
  lemma {:induction false} ReplayFinal(st: seq<Item>, items: seq<Item>, k: nat, n: nat, j: nat, defaults: int -> string) returns (r: seq<Item>)
    requires k <= n == |items| && j < n && SameShape(items, st) && AllTyped(items) && ModesApart(items)
    requires j < k ==> st[j] == Final(items, j, k, defaults)
    ensures r == Replay(st, items, k, defaults) && |r| == n && r[j] == Final(items, j, n, defaults)
    decreases n - k
  {
    if k == n {
      r := st;
      FinalEnd(items, j, k, n, defaults);
      ReplayEnd(st, items, k, defaults);
    } else {
      var next := ReplayNext(st, items, k, j, defaults);
      r := ReplayFinal(next, items, k + 1, n, j, defaults);
    }
  }

  lemma ReplayEnd(st: seq<Item>, items: seq<Item>, k: nat, defaults: int -> string)
    requires k == |items| == |st|
    ensures Replay(st, items, k, defaults) == st
  {
  }

  lemma FinalEnd(items: seq<Item>, j: nat, k: nat, n: nat, defaults: int -> string)
    requires j < k == n <= |items|
    ensures Final(items, j, k, defaults) == Final(items, j, n, defaults)
  {
  }

  /** Saving and loading gives every item back, whatever values it had before the load, except a
      video parameter with a video mode item behind it: that one gets the default of the mode. */
  lemma LoadAfterSave(items: seq<Item>, before: seq<Item>, defaults: int -> string)
    requires SameShape(items, before) && DistinctNames(items) && AllWritable(items)
    requires ModesApart(items)
    ensures var r := Load(Save(items), before, defaults);
            forall j :: 0 <= j < |items| ==> r[j] == Final(items, j, |items|, defaults)
  {
    LoadReplays(before, items, 0, defaults);
    assert items[0..] == items;
    assert forall i :: 0 <= i < |items| ==> Writable(items[i]);
    var r := Load(Save(items), before, defaults);
    forall j | 0 <= j < |items| ensures r[j] == Final(items, j, |items|, defaults) {
      var q := ReplayFinal(before, items, 0, |items|, j, defaults);
    }
  }

  /** Item `j` is a video parameter that a later line resets to something else. */
  predicate Overridden(items: seq<Item>, j: nat, defaults: int -> string)
    requires j < |items|
  {
    var m := LastVideo(items, j, |items|);
    items[j].name == VIDEO_PARAMETER && m != -1 && items[m].value.Number?
    && items[j].value != Text(defaults(items[m].value.n))
  }

  /** The round trip is exact if and only if no item is overridden in that way. */
  lemma RoundTripExact(items: seq<Item>, before: seq<Item>, defaults: int -> string)
    requires SameShape(items, before) && DistinctNames(items) && AllWritable(items)
    requires ModesApart(items)
    ensures Load(Save(items), before, defaults) == items <==> forall j :: 0 <= j < |items| ==> !Overridden(items, j, defaults)
  {
    LoadAfterSave(items, before, defaults);
    var r := Load(Save(items), before, defaults);
    forall j | 0 <= j < |items| ensures r[j] == items[j] <==> !Overridden(items, j, defaults) {
      FinalKept(items, j, defaults);
      assert r[j] == Final(items, j, |items|, defaults);
    }
    if forall j :: 0 <= j < |items| ==> !Overridden(items, j, defaults) {
      assert forall j :: 0 <= j < |items| ==> r[j] == items[j];
      assert r == items;
    }
  }

  lemma FinalKept(items: seq<Item>, j: nat, defaults: int -> string)
    requires j < |items|
    ensures Final(items, j, |items|, defaults) == items[j] <==> !Overridden(items, j, defaults)
  {
  }

  /** The loader registers the video mode before the menu items, so its parameter survives. */
  lemma VideoModeFirst(items: seq<Item>, before: seq<Item>, defaults: int -> string, v: nat)
    requires SameShape(items, before) && DistinctNames(items) && AllWritable(items)
    requires v < |items| && forall i :: 0 <= i < |items| ==> (items[i].kind == Video <==> i == v)
    requires items[v].name != VIDEO_PARAMETER && forall i :: 0 <= i < v ==> items[i].name != VIDEO_PARAMETER
    ensures Load(Save(items), before, defaults) == items
  {
    RoundTripExact(items, before, defaults);
    forall j | 0 <= j < |items| ensures !Overridden(items, j, defaults) {
      if j >= v { assert LastVideo(items, j, |items|) == -1; }
    }
  }
}
