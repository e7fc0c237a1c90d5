/**
 * Input-editing helpers of the console front end
 * (src/EmailClient.Console/Program.cs): the masked password reader, the
 * default for "how many e-mails", and the multi-line body reader. The console
 * is replaced by the sequence of keys or lines it would deliver.
 */
module ConsoleInput {
  import opened Wrappers

  // ---------------------------------------------------------------------
  // ReadPassword
  // ---------------------------------------------------------------------

  /** The keys `ReadPassword` tells apart; every other key is `OtherKey`. */
  datatype KeyKind = Backspace | Enter | OtherKey

  /**
   * A `ConsoleKeyInfo`: the key and the character it produces. Keys without
   * a character (arrows, function keys) produce U+0000, and that is what the
   * loop appends for them.
   */
  datatype KeyInfo = KeyInfo(key: KeyKind, keyChar: char)

  /** The effect of one key other than Enter on the password typed so far. */
  function Step(password: string, k: KeyInfo): (r: string)
    ensures k.key == OtherKey ==> |r| == |password| + 1 && r[..|password|] == password && r[|password|] == k.keyChar
    ensures k.key == Backspace ==> r <= password && |r| == if password == [] then 0 else |password| - 1
    ensures k.key == Enter ==> r == password
  {
    if k.key != Backspace && k.key != Enter then password + [k.keyChar]
    else if k.key == Backspace && |password| > 0 then password[..|password| - 1]
    else password
  }

  /** The password after typing `keys` on top of `password`, up to the first Enter. */
  function Typed(password: string, keys: seq<KeyInfo>): (r: string)
    ensures |r| <= |password| + |keys|
    decreases |keys|
  {
    if keys == [] || keys[0].key == Enter then password
    else Typed(Step(password, keys[0]), keys[1..])
  }

  predicate NoEnter(keys: seq<KeyInfo>)
  {
    forall i :: 0 <= i < |keys| ==> keys[i].key != Enter
  }

  /**
   * `ReadPassword`: reads keys until Enter, echoing `*`. It returns only once
   * Enter arrives, so the keys it is given contain one. `read` is the number
   * of keys consumed; the last of them is the first Enter.
   */
  method ReadPassword(keys: seq<KeyInfo>) returns (password: string, read: nat)
    requires exists i :: 0 <= i < |keys| && keys[i].key == Enter
    ensures 0 < read <= |keys| && keys[read - 1].key == Enter && NoEnter(keys[..read - 1])
    ensures password == Typed("", keys)
  {
    password, read := "", 0;
    var done := false;
    while !done
      invariant 0 <= read <= |keys|
      invariant !done ==> NoEnter(keys[..read]) && Typed(password, keys[read..]) == Typed("", keys)
      invariant done ==> 0 < read && keys[read - 1].key == Enter && NoEnter(keys[..read - 1])
      invariant done ==> password == Typed("", keys)
      decreases |keys| - read
    {
      var key := keys[read];
      assert keys[read..][1..] == keys[read + 1..];
      read := read + 1;
      if key.key != Backspace && key.key != Enter {
        password := password + [key.keyChar];
      } else if key.key == Backspace && |password| > 0 {
        password := password[..|password| - 1];
      }
      done := key.key == Enter;
      assert keys[..read] == keys[..read - 1] + [key];
    }
  }

  /**
   * Typing one more key: a character key appends its character, Backspace
   * removes the last character if there is one, and Enter changes nothing.
   */
  lemma {:induction false} TypedSnoc(password: string, keys: seq<KeyInfo>, k: KeyInfo)
    requires NoEnter(keys)
    decreases |keys|
    ensures Typed(password, keys + [k]) == if k.key == Enter then Typed(password, keys) else Step(Typed(password, keys), k)
  {
    if keys == [] {
      assert keys + [k] == [k];
      assert [k][1..] == [];
    } else {
      assert (keys + [k])[1..] == keys[1..] + [k];
      TypedSnoc(Step(password, keys[0]), keys[1..], k);
    }
  }

  /** The three editing rules, stated on whole key sequences typed before any Enter. */
  lemma PasswordEditing(keys: seq<KeyInfo>, c: char)
    requires NoEnter(keys)
    ensures Typed("", keys + [KeyInfo(OtherKey, c)]) == Typed("", keys) + [c]
    ensures Typed("", keys) != "" ==>
      Typed("", keys + [KeyInfo(Backspace, c)]) == Typed("", keys)[..|Typed("", keys)| - 1]
    ensures Typed("", keys) == "" ==> Typed("", keys + [KeyInfo(Backspace, c)]) == ""
    ensures Typed("", keys + [KeyInfo(Enter, c)]) == Typed("", keys)
  {
    TypedSnoc("", keys, KeyInfo(OtherKey, c));
    TypedSnoc("", keys, KeyInfo(Backspace, c));
    TypedSnoc("", keys, KeyInfo(Enter, c));
  }

  /** Only the keys before the first Enter matter: whatever follows it is never read. */
  lemma {:induction false} TypedStopsAtEnter(password: string, keys: seq<KeyInfo>, rest: seq<KeyInfo>)
    requires keys != [] && keys[|keys| - 1].key == Enter
    decreases |keys|
    ensures Typed(password, keys + rest) == Typed(password, keys)
  {
    if keys[0].key != Enter {
      assert (keys + rest)[1..] == keys[1..] + rest;
      TypedStopsAtEnter(Step(password, keys[0]), keys[1..], rest);
    }
  }

  // ---------------------------------------------------------------------
  // The "how many e-mails" default
  // ---------------------------------------------------------------------

  const Int32Min: int := -0x8000_0000
  const Int32Max: int := 0x7FFF_FFFF

  /** The count used when the answer is not a positive number. */
  const DefaultCount: int := 10

  /** White space `int.TryParse` skips at either end: U+0009 to U+000D and the space. */
  predicate IsParseWhite(c: char)
  {
    c == ' ' || '\t' <= c <= '\r'
  }

  predicate IsDigit(c: char)
  {
    '0' <= c <= '9'
  }

  /** `s` is made of decimal digits only. */
  predicate AllDigits(s: string)
  {
    forall i :: 0 <= i < |s| ==> IsDigit(s[i])
  }

  /** `s` without its leading white space: a suffix of `s` that starts with no white space. */
  function SkipWhite(s: string): (r: string)
    ensures |r| <= |s|
    ensures r != [] ==> !IsParseWhite(r[0])
  {
    if s != [] && IsParseWhite(s[0]) then SkipWhite(s[1..]) else s
  }

  /** Length of the run of ASCII digits at the start of `s`. */
  function DigitRun(s: string): (n: nat)
    ensures n <= |s| && AllDigits(s[..n])
  {
    if s != [] && IsDigit(s[0]) then 1 + DigitRun(s[1..]) else 0
  }

  /** `s` holds nothing but NUL characters, which the .NET number parser accepts at the end. */
  predicate AllNul(s: string)
  {
    forall i :: 0 <= i < |s| ==> s[i] == '\0'
  }

  function DigitValue(c: char): nat
    requires IsDigit(c)
  {
    c as int - '0' as int
  }

  /** The value of a string of decimal digits. */
  function DigitsValue(ds: string): nat
    requires AllDigits(ds)
  {
    if ds == [] then 0 else DigitsValue(ds[..|ds| - 1]) * 10 + DigitValue(ds[|ds| - 1])
  }

  /** The magnitude after the sign: digits, then optional white space, then only NULs. */
  function ParseMagnitude(u: string): Option<nat>
  {
    var n := DigitRun(u);
    if n == 0 || !AllNul(SkipWhite(u[n..])) then None else Some(DigitsValue(u[..n]))
  }

  /**
   * `int.TryParse(s, out n)` with `NumberStyles.Integer`: optional white
   * space, an optional `+` or `-`, at least one ASCII digit, optional white
   * space, then only NUL characters; the value must fit in 32 bits. A null
   * string (`None`) does not parse.
   */
  function TryParseInt32(input: Option<string>): (r: Option<int>)
    ensures r.Some? ==> Int32Min <= r.value <= Int32Max
  {
    match input
    case None => None
    case Some(s) => ParseSigned(SkipWhite(s))
  }

  /** The rest of `int.TryParse` once leading white space is gone: an optional sign, then the magnitude. */
  function ParseSigned(t: string): (r: Option<int>)
    ensures r.Some? ==> Int32Min <= r.value <= Int32Max
  {
    var signed := t != [] && (t[0] == '-' || t[0] == '+');
    var magnitude := ParseMagnitude(if signed then t[1..] else t);
    if magnitude.None? then None
    else
      var v: int := if signed && t[0] == '-' then -(magnitude.value as int) else magnitude.value;
      if Int32Min <= v <= Int32Max then Some(v) else None
  }

  /**
   * The rule of `ListEmails` and `SaveEmailsToJson`: the parsed number when it
   * parses and is positive, otherwise 10.
   */
  function FetchCount(input: Option<string>): (count: int)
    ensures 1 <= count <= Int32Max
    ensures count != DefaultCount ==> TryParseInt32(input) == Some(count)
    ensures TryParseInt32(input).Some? && TryParseInt32(input).value > 0 ==> count == TryParseInt32(input).value
    ensures (TryParseInt32(input).None? || TryParseInt32(input).value <= 0) ==> count == DefaultCount
  {
    var parsed := TryParseInt32(input);
    if parsed.None? || parsed.value <= 0 then DefaultCount else parsed.value
  }

  function DigitChar(d: nat): char
    requires d < 10
  {
    ('0' as int + d) as char
  }

  /** The decimal numeral of `n`, without sign or leading zeros: what a user types for `n`. */
  function DecimalString(n: nat): (s: string)
    ensures s != [] && AllDigits(s)
  {
    if n < 10 then [DigitChar(n)] else DecimalString(n / 10) + [DigitChar(n % 10)]
  }

  lemma {:induction false} DigitsValueOfDecimal(n: nat)
    ensures DigitsValue(DecimalString(n)) == n
  {
    var s := DecimalString(n);
    if n >= 10 {
      DigitsValueOfDecimal(n / 10);
      assert s[..|s| - 1] == DecimalString(n / 10);
    }
  }

  lemma {:induction false} DigitRunAll(s: string)
    requires AllDigits(s)
    ensures DigitRun(s) == |s|
  {
    if s != [] {
      DigitRunAll(s[1..]);
    }
  }

  lemma SkipWhiteAtNonWhite(s: string)
    requires s != [] && !IsParseWhite(s[0])
    ensures SkipWhite(s) == s
  {
  }

  lemma ParseMagnitudeOfDecimal(n: nat)
    ensures ParseMagnitude(DecimalString(n)) == Some(n)
  {
    var s := DecimalString(n);
    DigitRunAll(s);
    DigitsValueOfDecimal(n);
    assert s[..|s|] == s;
    assert SkipWhite(s[|s|..]) == [];
  }

  /** Parsing the numeral of a number gives the number back, if it fits in 32 bits. */
  lemma ParseDecimal(n: nat)
    ensures TryParseInt32(Some(DecimalString(n))) == if n <= Int32Max then Some(n) else None
  {
    var s := DecimalString(n);
    assert !IsParseWhite(s[0]) && s[0] != '-' && s[0] != '+';
    SkipWhiteAtNonWhite(s);
    ParseMagnitudeOfDecimal(n);
  }

  /** Parsing a negative numeral gives the negative number, down to the smallest 32-bit value. */
  lemma ParseNegativeDecimal(n: nat)
    ensures TryParseInt32(Some("-" + DecimalString(n))) == if n <= -Int32Min then Some(-(n as int)) else None
  {
    var t := "-" + DecimalString(n);
    assert t[1..] == DecimalString(n);
    ParseMagnitudeOfDecimal(n);
    SkipWhiteAtNonWhite(t);
  }

  predicate AllParseWhite(s: string)
  {
    forall i :: 0 <= i < |s| ==> IsParseWhite(s[i])
  }

  /** Leading white space is skipped up to the first character that is not white space. */
  lemma {:induction false} SkipWhiteOver(w: string, rest: string)
    requires AllParseWhite(w)
    requires rest == [] || !IsParseWhite(rest[0])
    ensures SkipWhite(w + rest) == rest
  {
    if w == [] {
      assert w + rest == rest;
      if rest != [] {
        SkipWhiteAtNonWhite(rest);
      }
    } else {
      assert (w + rest)[0] == w[0];
      assert (w + rest)[1..] == w[1..] + rest;
      SkipWhiteOver(w[1..], rest);
    }
  }

  /** The digit run ends at the first character that is not a digit. */
  lemma {:induction false} DigitRunStops(ds: string, tail: string)
    requires AllDigits(ds)
    requires tail == [] || !IsDigit(tail[0])
    ensures DigitRun(ds + tail) == |ds|
  {
    if ds == [] {
      assert ds + tail == tail;
    } else {
      assert (ds + tail)[0] == ds[0];
      assert (ds + tail)[1..] == ds[1..] + tail;
      DigitRunStops(ds[1..], tail);
    }
  }

  /** Digits followed by white space and then NULs only are a magnitude. */
  lemma MagnitudeWithTrailer(ds: string, w: string, z: string)
    requires ds != [] && AllDigits(ds) && AllParseWhite(w) && AllNul(z)
    ensures ParseMagnitude(ds + w + z) == Some(DigitsValue(ds))
    ensures (ds + w + z)[0] == ds[0]
  {
    var u := ds + w + z;
    var tail := w + z;
    assert u == ds + tail;
    if tail != [] {
      assert tail[0] == if w != [] then w[0] else z[0];
    }
    DigitRunStops(ds, tail);
    assert u[..|ds|] == ds && u[|ds|..] == tail;
    if z != [] {
      assert z[0] == '\0';
    }
    SkipWhiteOver(w, z);
  }

  /** After the leading white space: an optional sign, then the magnitude. */
  lemma ParseSignedWith(sign: string, u: string, m: nat)
    requires sign == "" || sign == "+" || sign == "-"
    requires u != [] && IsDigit(u[0]) && ParseMagnitude(u) == Some(m)
    ensures var v: int := if sign == "-" then -(m as int) else m;
            ParseSigned(sign + u) == if Int32Min <= v <= Int32Max then Some(v) else None
  {
    var t := sign + u;
    if sign != "" {
      assert t[0] == sign[0] && t[1..] == u;
    } else {
      assert t == u;
    }
  }

  /**
   * `int.TryParse` with `NumberStyles.Integer` on a full input: white space,
   * an optional sign, digits (leading zeros allowed), white space, and NULs.
   * The value is the signed value of the digits, when it fits in 32 bits.
   */
  lemma TryParseInt32Accepts(w1: string, sign: string, ds: string, w2: string, z: string)
    requires AllParseWhite(w1) && AllParseWhite(w2) && AllNul(z)
    requires sign == "" || sign == "+" || sign == "-"
    requires ds != [] && AllDigits(ds)
    ensures var v: int := if sign == "-" then -(DigitsValue(ds) as int) else DigitsValue(ds);
            TryParseInt32(Some(w1 + sign + ds + w2 + z)) == if Int32Min <= v <= Int32Max then Some(v) else None
  {
    var u := ds + w2 + z;
    var x := w1 + sign + ds + w2 + z;
    SkipLeadingWhite(w1, sign, u);
    Associate(x, w1, sign, ds, w2, z);
    assert SkipWhite(x) == sign + u;
    MagnitudeWithTrailer(ds, w2, z);
    ParseSignedWith(sign, u, DigitsValue(ds));
    assert TryParseInt32(Some(x)) == ParseSigned(sign + u);
  }

  lemma SkipLeadingWhite(w: string, sign: string, u: string)
    requires AllParseWhite(w)
    requires sign == "" || sign == "+" || sign == "-"
    requires u != [] && IsDigit(u[0])
    ensures SkipWhite(w + (sign + u)) == sign + u
  {
    var t := sign + u;
    assert t[0] == if sign != "" then sign[0] else u[0];
    SkipWhiteOver(w, t);
  }

  /** What `SkipWhite` removes is white space, and it removes a prefix. */
  lemma {:induction false} SkipWhiteSplit(s: string)
    ensures AllParseWhite(s[..|s| - |SkipWhite(s)|])
    ensures s == s[..|s| - |SkipWhite(s)|] + SkipWhite(s)
  {
    if s != [] && IsParseWhite(s[0]) {
      SkipWhiteSplit(s[1..]);
      var r := SkipWhite(s[1..]);
      assert s[1..] == s[1..][..|s| - 1 - |r|] + r;
      assert s[..|s| - |r|] == [s[0]] + s[1..][..|s| - 1 - |r|];
    } else {
      assert s[..0] == [];
    }
  }

  /** Every magnitude is digits, then white space, then NULs. */
  lemma MagnitudeShape(u: string) returns (ds: string, w: string, z: string)
    requires ParseMagnitude(u).Some?
    ensures u == ds + w + z
    ensures ds != [] && AllDigits(ds) && AllParseWhite(w) && AllNul(z)
    ensures ParseMagnitude(u).value == DigitsValue(ds)
  {
    var n := DigitRun(u);
    ds := u[..n];
    var tail := u[n..];
    assert u == ds + tail;
    SkipWhiteSplit(tail);
    z := SkipWhite(tail);
    w := tail[..|tail| - |z|];
    assert tail == w + z;
  }

  /**
   * Conversely, every input `int.TryParse` accepts has that form, and its
   * value is the signed value of its digits.
   */
  lemma TryParseInt32Shape(s: string) returns (w1: string, sign: string, ds: string, w2: string, z: string)
    requires TryParseInt32(Some(s)).Some?
    ensures s == w1 + sign + ds + w2 + z
    ensures AllParseWhite(w1) && AllParseWhite(w2) && AllNul(z)
    ensures (sign == "" || sign == "+" || sign == "-") && ds != [] && AllDigits(ds)
    ensures TryParseInt32(Some(s)).value == if sign == "-" then -(DigitsValue(ds) as int) else DigitsValue(ds)
  {
    var t := SkipWhite(s);
    SkipWhiteSplit(s);
    w1 := s[..|s| - |t|];
    var u;
    sign, u := SignedShape(t);
    ds, w2, z := MagnitudeShape(u);
    Associate(s, w1, sign, ds, w2, z);
  }

  /** Regrouping of the five pieces of a number, stated apart to keep the parsing proofs small. */
  lemma Associate(s: string, w1: string, sign: string, ds: string, w2: string, z: string)
    ensures s == w1 + (sign + (ds + w2 + z)) <==> s == w1 + sign + ds + w2 + z
  {
  }

  /** Every accepted input, once its leading white space is gone, is an optional sign and a magnitude. */
  lemma SignedShape(t: string) returns (sign: string, u: string)
    requires ParseSigned(t).Some?
    ensures t == sign + u && (sign == "" || sign == "+" || sign == "-")
    ensures ParseMagnitude(u).Some?
    ensures ParseSigned(t).value == if sign == "-" then -(ParseMagnitude(u).value as int) else ParseMagnitude(u).value
  {
    var signed := t != [] && (t[0] == '-' || t[0] == '+');
    sign := if signed then t[..1] else "";
    u := if signed then t[1..] else t;
    assert t == sign + u;
    if signed {
      assert sign == [t[0]];
    }
  }

  /** Typing a number gives that number if it is between 1 and the largest 32-bit value, and 10 otherwise. */
  lemma FetchCountOfDecimal(n: nat)
    ensures FetchCount(Some(DecimalString(n))) == if 1 <= n <= Int32Max then n else DefaultCount
  {
    ParseDecimal(n);
  }

  /**
   * White space around the answer, a `+` sign, leading zeros and trailing
   * NULs do not change the count: a positive value that fits in 32 bits is
   * used, anything else gives 10.
   */
  lemma FetchCountAccepts(w1: string, sign: string, ds: string, w2: string, z: string)
    requires AllParseWhite(w1) && AllParseWhite(w2) && AllNul(z)
    requires sign == "" || sign == "+" || sign == "-"
    requires ds != [] && AllDigits(ds)
    ensures var v: int := if sign == "-" then -(DigitsValue(ds) as int) else DigitsValue(ds);
            FetchCount(Some(w1 + sign + ds + w2 + z)) == if 1 <= v <= Int32Max then v else DefaultCount
  {
    TryParseInt32Accepts(w1, sign, ds, w2, z);
  }

  /** A negative answer falls back to 10. */
  lemma FetchCountOfNegative(n: nat)
    ensures FetchCount(Some("-" + DecimalString(n))) == DefaultCount
  {
    ParseNegativeDecimal(n);
  }

  // ---------------------------------------------------------------------
  // The body of a new message (SendEmail)
  // ---------------------------------------------------------------------

  /** The lines before the first empty one. */
  function BodyLines(lines: seq<string>): (r: seq<string>)
    ensures r <= lines
    ensures forall i :: 0 <= i < |r| ==> r[i] != ""
    ensures |r| < |lines| ==> lines[|r|] == ""
  {
    if lines == [] || lines[0] == "" then []
    else [lines[0]] + BodyLines(lines[1..])
  }

  /** Total length of `parts`. */
  function TotalLength(parts: seq<string>): nat
  {
    if parts == [] then 0 else |parts[0]| + TotalLength(parts[1..])
  }

  /**
   * `string.Join(sep, parts)`: the parts, in order, with one separator
   * between each two; it starts with the first part, followed by the
   * separator when more parts come, and ends with the last part.
   */
  function Join(sep: string, parts: seq<string>): (r: string)
    ensures |r| == TotalLength(parts) + if parts == [] then 0 else (|parts| - 1) * |sep|
    ensures parts != [] ==> parts[0] <= r
    ensures |parts| > 1 ==> parts[0] + sep <= r
    ensures parts != [] ==> |parts[|parts| - 1]| <= |r| && r[|r| - |parts[|parts| - 1]|..] == parts[|parts| - 1]
  {
    if parts == [] then ""
    else if |parts| == 1 then parts[0]
    else
      var rest, last := Join(sep, parts[1..]), parts[|parts| - 1];
      assert parts[1..][|parts| - 2] == last;
      var r := parts[0] + sep + rest;
      assert r[|r| - |last|..] == rest[|rest| - |last|..];
      r
  }

  /**
   * The loop of `SendEmail`: reads lines until a null (`ReadLine` at the end
   * of the input) or an empty line and joins them with `newLine`
   * (`Environment.NewLine`). `read` is the number of lines consumed, the
   * terminating empty line included.
   */
  method ReadBody(lines: seq<string>, newLine: string) returns (body: string, read: nat)
    ensures body == Join(newLine, BodyLines(lines))
    ensures read == if |BodyLines(lines)| < |lines| then |BodyLines(lines)| + 1 else |lines|
  {
    var bodyLines: seq<string> := [];
    read := 0;
    while true
      invariant 0 <= read <= |lines|
      invariant bodyLines == lines[..read]
      invariant forall i :: 0 <= i < read ==> lines[i] != ""
      decreases |lines| - read
    {
      var line: Option<string> := if read < |lines| then Some(lines[read]) else None;
      if line.None? || line.value == "" {
        if line.Some? {
          read := read + 1;
        }
        break;
      }
      bodyLines := bodyLines + [line.value];
      read := read + 1;
    }
    BodyLinesUnique(lines, |bodyLines|);
    body := Join(newLine, bodyLines);
  }

  /** The lines before the first empty one are the only prefix of non-empty lines followed by an empty line or the end. */
  lemma BodyLinesUnique(lines: seq<string>, k: nat)
    requires k <= |lines|
    requires forall i :: 0 <= i < k ==> lines[i] != ""
    requires k == |lines| || lines[k] == ""
    ensures BodyLines(lines) == lines[..k]
  {
  }

  /** The whole separator `sep` occurs in `text` at index `j`. */
  predicate SepAt(text: string, sep: string, j: int)
  {
    0 <= j && j + |sep| <= |text| && text[j..j + |sep|] == sep
  }

  /** Index of the first occurrence of `sep` in `text`, or `|text|` when there is none. */
  function Find(text: string, sep: string): (i: nat)
    requires sep != []
    ensures i <= |text|
    ensures i < |text| <==> SepAt(text, sep, i)
    ensures forall j :: 0 <= j < i ==> !SepAt(text, sep, j)
  {
    if |text| < |sep| then |text|
    else if text[..|sep|] == sep then 0
    else
      var i := Find(text[1..], sep);
      SepAtShift(text, sep);
      if i < |text| - 1 then i + 1 else |text|
  }

  /** An occurrence in `text[1..]` is one in `text`, one index further. */
  lemma SepAtShift(text: string, sep: string)
    requires text != []
    ensures forall j :: 1 <= j ==> (SepAt(text, sep, j) <==> SepAt(text[1..], sep, j - 1))
  {
    forall j | 1 <= j ensures SepAt(text, sep, j) <==> SepAt(text[1..], sep, j - 1) {
      if j + |sep| <= |text| {
        assert text[1..][j - 1..j - 1 + |sep|] == text[j..j + |sep|];
      }
    }
  }

  /** Cuts a non-empty `text` at each occurrence of the whole separator. */
  function Split(text: string, sep: string): seq<string>
    requires sep != []
    decreases |text|
  {
    if text == [] then []
    else
      var i := Find(text, sep);
      if i < |text| then [text[..i]] + Split(text[i + |sep|..], sep) else [text]
  }

  /** Joining non-empty parts that do not contain the separator's first character can be undone by splitting. */
  lemma {:induction false} SplitJoin(sep: string, parts: seq<string>)
    requires sep != []
    requires forall i :: 0 <= i < |parts| ==> parts[i] != "" && sep[0] !in parts[i]
    ensures Split(Join(sep, parts), sep) == parts
  {
    if |parts| == 1 {
      FindNoSep(parts[0], sep);
    } else if |parts| > 1 {
      var p, rest := parts[0], Join(sep, parts[1..]);
      assert Join(sep, parts) == p + sep + rest;
      SplitAfterPart(p, sep, rest);
      SplitJoin(sep, parts[1..]);
    }
  }

  /** Splitting a part, the separator and a rest gives the part, then the pieces of the rest. */
  lemma SplitAfterPart(p: string, sep: string, rest: string)
    requires sep != [] && p != [] && sep[0] !in p
    ensures Split(p + sep + rest, sep) == [p] + Split(rest, sep)
  {
    var text := p + sep + rest;
    FindAfterPart(p, sep, rest);
    assert text[..|p|] == p;
    assert text[|p| + |sep|..] == rest;
  }

  /** Without the separator's first character, a part holds no separator. */
  lemma FindNoSep(p: string, sep: string)
    requires sep != [] && sep[0] !in p
    ensures Find(p, sep) == |p|
  {
    forall j | 0 <= j < |p| ensures !SepAt(p, sep, j) {
      assert p[j] != sep[0];
    }
  }

  /** The first separator after such a part is the one that follows it. */
  lemma FindAfterPart(p: string, sep: string, rest: string)
    requires sep != [] && sep[0] !in p
    ensures Find(p + sep + rest, sep) == |p|
  {
    var text := p + sep + rest;
    assert text[|p|..|p| + |sep|] == sep;
    assert SepAt(text, sep, |p|);
    forall j | 0 <= j < |p| ensures !SepAt(text, sep, j) {
      assert text[j] == p[j];
    }
  }

  /**
   * The body determines the lines typed: console lines never contain a line
   * break, so splitting the body at the newline gives back the lines before
   * the first empty one.
   */
  lemma BodyRoundTrip(lines: seq<string>, newLine: string)
    requires newLine == "\n" || newLine == "\r\n"
    requires forall i :: 0 <= i < |lines| ==> '\n' !in lines[i] && '\r' !in lines[i]
    ensures Split(Join(newLine, BodyLines(lines)), newLine) == BodyLines(lines)
  {
    var r := BodyLines(lines);
    forall i | 0 <= i < |r| ensures r[i] != "" && newLine[0] !in r[i] {
      assert r[i] == lines[i];
    }
    SplitJoin(newLine, r);
  }
}
