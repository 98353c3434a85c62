/** The text of the move messages `server.py` sends and receives: the `'{}-{}-{}-{}'`
    format, Python's `str.split('-')`, and Python's `int()` on the coordinate fields. */
module Protocol {
  import opened Outcomes

  const Separator: char := '-'

  /** The literal that marks a message as handing the turn over. */
  const YourTurn: string := "yourturn"

  /** A received move: the two coordinates and the raw third and fourth fields. */
  datatype Move = Move(x: nat, y: nat, turnField: string, playingField: string)

  predicate NoSeparator(s: string) {
    Separator !in s
  }

  /** `Separator.join(fields)`. */
  function Join(fields: seq<string>): (s: string)
    requires |fields| >= 1
    decreases |fields|
  {
    if |fields| == 1 then fields[0] else fields[0] + [Separator] + Join(fields[1..])
  }

  /** Joining separator-free fields puts exactly one separator between neighbours. */
  lemma {:induction false} JoinCount(fields: seq<string>)
    requires |fields| >= 1
    requires forall k :: 0 <= k < |fields| ==> NoSeparator(fields[k])
    ensures multiset(Join(fields))[Separator] == |fields| - 1
    decreases |fields|
  {
    if |fields| > 1 {
      JoinCount(fields[1..]);
      var a, b := fields[0], Join(fields[1..]);
      assert multiset(a)[Separator] == 0;
      assert multiset(a + [Separator] + b) == multiset(a) + multiset{Separator} + multiset(b);
    } else {
      assert multiset(fields[0])[Separator] == 0;
    }
  }

  /** `s.split('-')`: the maximal separator-free pieces, empty ones included. */
  function Split(s: string): (fields: seq<string>)
    ensures |fields| >= 1
    ensures forall k :: 0 <= k < |fields| ==> NoSeparator(fields[k])
    ensures Join(fields) == s
    decreases |s|
  {
    if s == [] then [""]
    else
      var rest := Split(s[1..]);
      if s[0] == Separator then
        assert Join([""] + rest) == [Separator] + Join(rest) by {
          assert ([""] + rest)[1..] == rest;
        }
        [""] + rest
      else
        var fields := [[s[0]] + rest[0]] + rest[1..];
        assert Join(fields) == [s[0]] + Join(rest) by {
          if |rest| > 1 {
            assert fields[1..] == rest[1..];
          }
        }
        fields
  }

  /** Splitting a separator-free prefix onto the front of a string extends the first field. */
  lemma {:induction false} SplitPrefix(w: string, t: string)
    requires NoSeparator(w)
    ensures Split(w + t) == [w + Split(t)[0]] + Split(t)[1..]
    decreases |w|
  {
    if w != [] {
      assert w[0] in w;
      assert (w + t)[0] == w[0] && (w + t)[1..] == w[1..] + t;
      SplitPrefix(w[1..], t);
      var rest := Split(w[1..] + t);
      assert rest[0] == w[1..] + Split(t)[0] && rest[1..] == Split(t)[1..];
      assert Split(w + t) == [[w[0]] + rest[0]] + rest[1..];
      assert [w[0]] + (w[1..] + Split(t)[0]) == w + Split(t)[0];
    } else {
      assert w + t == t && w + Split(t)[0] == Split(t)[0];
      assert Split(t) == [Split(t)[0]] + Split(t)[1..];
    }
  }

  /** Splitting undoes joining separator-free fields. */
  lemma {:induction false} SplitJoin(fields: seq<string>)
    requires |fields| >= 1
    requires forall k :: 0 <= k < |fields| ==> NoSeparator(fields[k])
    ensures Split(Join(fields)) == fields
    decreases |fields|
  {
    if |fields| == 1 {
      SplitPrefix(fields[0], "");
      assert fields[0] + "" == fields[0];
    } else {
      var tail := Join(fields[1..]);
      var u := [Separator] + tail;
      assert Join(fields) == fields[0] + u;
      assert u[0] == Separator && u[1..] == tail;
      SplitJoin(fields[1..]);
      assert Split(u) == [""] + fields[1..];
      SplitPrefix(fields[0], u);
      assert Split(u)[0] == "" && Split(u)[1..] == fields[1..];
      assert fields[0] + "" == fields[0];
    }
  }

  /** `s.split('-')` has one field more than `s` has separators. */
  lemma SplitCount(s: string)
    ensures |Split(s)| == multiset(s)[Separator] + 1
  {
    JoinCount(Split(s));
  }

  predicate IsDigit(c: char) {
    '0' <= c <= '9'
  }

  predicate AllDigits(s: string) {
    forall k :: 0 <= k < |s| ==> IsDigit(s[k])
  }

  /** The whitespace `int()` ignores around a number: the ASCII C whitespace
      (tab, line feed, vertical tab, form feed, carriage return, space) and the
      non-ASCII characters `str.isspace` accepts, which `int()` maps to a space
      first. The ASCII separators U+001C..U+001F are not among them. */
  predicate IsSpace(c: char) {
    var n := c as int;
    || 9 <= n <= 13 || n == 32 || n == 0x85 || n == 0xA0 || n == 0x1680
    || 0x2000 <= n <= 0x200A || n == 0x2028 || n == 0x2029 || n == 0x202F
    || n == 0x205F || n == 0x3000
  }

  function DigitChar(d: nat): (c: char)
    requires d < 10
    ensures IsDigit(c)
  {
    ('0' as int + d) as char
  }

  function DigitValue(c: char): (d: nat)
    requires IsDigit(c)
    ensures d < 10 && DigitChar(d) == c
  {
    c as int - '0' as int
  }

  /** The number a string of decimal digits denotes (most significant first). */
  function DigitsValue(s: string): nat
    requires AllDigits(s)
    decreases |s|
  {
    if s == [] then 0 else 10 * DigitsValue(s[..|s| - 1]) + DigitValue(s[|s| - 1])
  }

  /** `str(n)` for a non-negative integer: its shortest decimal numeral. */
  function Decimal(n: nat): (s: string)
    ensures 1 <= |s| && AllDigits(s)
    ensures |s| > 1 ==> s[0] != '0'
    decreases n
  {
    if n < 10 then [DigitChar(n)] else Decimal(n / 10) + [DigitChar(n % 10)]
  }

  /** The numeral `str(n)` denotes `n`. */
  lemma {:induction false} DecimalValue(n: nat)
    ensures DigitsValue(Decimal(n)) == n
    decreases n
  {
    if n >= 10 {
      var s := Decimal(n);
      assert s[..|s| - 1] == Decimal(n / 10);
      DecimalValue(n / 10);
    }
  }

  /** `s` with its leading whitespace removed. */
  function TrimStart(s: string): (t: string)
    ensures |t| <= |s| && t == s[|s| - |t|..]
    ensures t == [] || !IsSpace(t[0])
    ensures forall k :: 0 <= k < |s| - |t| ==> IsSpace(s[k])
    decreases |s|
  {
    if s != [] && IsSpace(s[0]) then TrimStart(s[1..]) else s
  }

  /** `s` with its trailing whitespace removed. */
  function TrimEnd(s: string): (t: string)
    ensures |t| <= |s| && t == s[..|t|]
    ensures t == [] || !IsSpace(t[|t| - 1])
    ensures forall k :: |t| <= k < |s| ==> IsSpace(s[k])
    decreases |s|
  {
    if s != [] && IsSpace(s[|s| - 1]) then TrimEnd(s[..|s| - 1]) else s
  }

  /** Digits with single underscores between them, as `int()` accepts them: `"1_000"`. */
  predicate Grouped(s: string) {
    && |s| >= 1
    && IsDigit(s[0]) && IsDigit(s[|s| - 1])
    && (forall k :: 0 <= k < |s| ==> IsDigit(s[k]) || s[k] == '_')
    && (forall k :: 0 <= k < |s| - 1 ==> IsDigit(s[k]) || IsDigit(s[k + 1]))
  }

  /** The digits of `s`, in order, with every other character dropped. */
  function DigitsOf(s: string): (t: string)
    ensures AllDigits(t) && |t| <= |s|
    ensures AllDigits(s) ==> t == s
    decreases |s|
  {
    if s == [] then [] else (if IsDigit(s[0]) then [s[0]] else []) + DigitsOf(s[1..])
  }

  lemma {:induction false} DigitsOfConcat(a: string, b: string)
    ensures DigitsOf(a + b) == DigitsOf(a) + DigitsOf(b)
    decreases |a|
  {
    if a != [] {
      assert (a + b)[1..] == a[1..] + b;
      DigitsOfConcat(a[1..], b);
    } else {
      assert a + b == b;
    }
  }

  /** Whitespace holds no digit, and `int()` may meet it. */
  lemma {:induction false} Blank(s: string)
    requires forall k :: 0 <= k < |s| ==> IsSpace(s[k])
    ensures DigitsOf(s) == [] && Numeric(s)
    decreases |s|
  {
    if s != [] {
      assert !IsDigit(s[0]);
      Blank(s[1..]);
    }
  }

  /** A character `int()` can meet in a field it accepts. */
  predicate NumericChar(c: char) {
    IsDigit(c) || c == '_' || c == '+' || IsSpace(c)
  }

  predicate Numeric(s: string) {
    forall k :: 0 <= k < |s| ==> NumericChar(s[k])
  }

  /** `int(field)` for a field of a split message, which cannot hold a '-' sign:
      surrounding whitespace, an optional '+', then grouped decimal digits.
      An accepted field holds nothing but those characters, and its value is
      the number its digits denote. */
  function ParseInt(field: string): (r: Result<nat>)
    requires NoSeparator(field)
    ensures r.Err? ==> r.fault == ValueError
    ensures field == [] ==> r.Err?
    ensures r.Ok? ==> Numeric(field) && r.value == DigitsValue(DigitsOf(field))
  {
    var t := TrimEnd(TrimStart(field));
    var body := if t != [] && t[0] == '+' then t[1..] else t;
    if Grouped(body) then
      ParsedPieces(field, t, body);
      Ok(DigitsValue(DigitsOf(body)))
    else Err(ValueError)
  }

  lemma CutAt(s: string, n: nat)
    requires n <= |s|
    ensures s == s[..n] + s[n..]
  {
  }

  /** `TrimStart` cuts off a whitespace prefix. */
  lemma LeadingSpace(s: string) returns (lead: string)
    ensures s == lead + TrimStart(s)
    ensures forall k :: 0 <= k < |lead| ==> IsSpace(lead[k])
  {
    var t := TrimStart(s);
    lead := s[..|s| - |t|];
    CutAt(s, |s| - |t|);
    forall k | 0 <= k < |lead|
      ensures IsSpace(lead[k])
    {
      assert lead[k] == s[k];
    }
  }

  /** `TrimEnd` cuts off a whitespace suffix. */
  lemma TrailingSpace(s: string) returns (trail: string)
    ensures s == TrimEnd(s) + trail
    ensures forall k :: 0 <= k < |trail| ==> IsSpace(trail[k])
  {
    var t := TrimEnd(s);
    trail := s[|t|..];
    CutAt(s, |t|);
    forall k | 0 <= k < |trail|
      ensures IsSpace(trail[k])
    {
      assert trail[k] == s[|t| + k];
    }
  }

  lemma NumericConcat(a: string, b: string)
    requires Numeric(a) && Numeric(b)
    ensures Numeric(a + b)
  {
    forall k | 0 <= k < |a + b|
      ensures NumericChar((a + b)[k])
    {
      if k < |a| {
        assert (a + b)[k] == a[k];
      } else {
        assert (a + b)[k] == b[k - |a|];
      }
    }
  }

  /** Whitespace, an optional '+', grouped digits and whitespace again hold
      only characters `int()` may meet, and the digits are those of the group. */
  lemma {:induction false} Pieces(lead: string, t: string, trail: string, body: string)
    requires forall k :: 0 <= k < |lead| ==> IsSpace(lead[k])
    requires forall k :: 0 <= k < |trail| ==> IsSpace(trail[k])
    requires t == body || t == ['+'] + body
    requires Grouped(body)
    ensures Numeric(lead + t + trail) && DigitsOf(lead + t + trail) == DigitsOf(body)
  {
    Blank(lead);
    Blank(trail);
    assert Numeric(body);
    if t != body {
      NumericConcat(['+'], body);
      DigitsOfConcat(['+'], body);
    }
    NumericConcat(lead, t);
    NumericConcat(lead + t, trail);
    var d := DigitsOf(t);
    assert DigitsOf(lead + t) == d by {
      DigitsOfConcat(lead, t);
      assert [] + d == d;
    }
    assert DigitsOf(lead + t + trail) == d by {
      DigitsOfConcat(lead + t, trail);
      assert d + [] == d;
    }
  }

  /** The pieces `ParseInt` cuts a field into: whitespace, the optional '+',
      the grouped digits, whitespace. */
  lemma ParsedPieces(field: string, t: string, body: string)
    requires t == TrimEnd(TrimStart(field))
    requires body == if t != [] && t[0] == '+' then t[1..] else t
    requires Grouped(body)
    ensures Numeric(field) && DigitsOf(field) == DigitsOf(body)
  {
    var t0 := TrimStart(field);
    var lead := LeadingSpace(field);
    var trail := TrailingSpace(t0);
    Reassemble(field, lead, t0, t, trail);
    if t != [] && t[0] == '+' {
      PlusHead(t);
    }
    Pieces(lead, t, trail, body);
  }

  lemma Reassemble(field: string, lead: string, t0: string, t: string, trail: string)
    requires field == lead + t0 && t0 == t + trail
    ensures field == lead + t + trail
  {
  }

  lemma PlusHead(t: string)
    requires t != [] && t[0] == '+'
    ensures t == ['+'] + t[1..]
  {
    CutAt(t, 1);
    assert t[..1] == ['+'];
  }

  predicate AllSpace(s: string) {
    forall k :: 0 <= k < |s| ==> IsSpace(s[k])
  }

  /** The text `int()` accepts, given by its pieces: whitespace, an optional '+', digits
      grouped by single underscores, whitespace. */
  predicate Literal(lead: string, sign: string, body: string, trail: string) {
    AllSpace(lead) && (sign == "" || sign == "+") && Grouped(body) && AllSpace(trail)
  }

  lemma {:induction false} TrimStartSkips(lead: string, rest: string)
    requires AllSpace(lead) && (rest == [] || !IsSpace(rest[0]))
    ensures TrimStart(lead + rest) == rest
    decreases |lead|
  {
    if lead == [] {
      assert lead + rest == rest;
    } else {
      assert (lead + rest)[1..] == lead[1..] + rest;
      TrimStartSkips(lead[1..], rest);
    }
  }

  lemma {:induction false} TrimEndSkips(rest: string, trail: string)
    requires AllSpace(trail) && (rest == [] || !IsSpace(rest[|rest| - 1]))
    ensures TrimEnd(rest + trail) == rest
    decreases |trail|
  {
    if trail == [] {
      assert rest + trail == rest;
    } else {
      var u := rest + trail;
      assert u[..|u| - 1] == rest + trail[..|trail| - 1];
      TrimEndSkips(rest, trail[..|trail| - 1]);
    }
  }

  lemma NumericNoSeparator(s: string)
    requires Numeric(s)
    ensures NoSeparator(s)
  {
    assert forall k :: 0 <= k < |s| ==> s[k] != Separator;
  }

  lemma Regroup(lead: string, sign: string, body: string, trail: string)
    ensures lead + sign + body + trail == lead + (sign + body) + trail
  {
  }

  lemma Associate(a: string, b: string, c: string)
    ensures a + b + c == a + (b + c)
  {
  }

  /** Trimming a literal leaves its signed digit group. */
  lemma LiteralTrims(lead: string, t: string, trail: string)
    requires AllSpace(lead) && AllSpace(trail)
    requires t != [] && !IsSpace(t[0]) && !IsSpace(t[|t| - 1])
    ensures TrimEnd(TrimStart(lead + t + trail)) == t
  {
    Associate(lead, t, trail);
    TrimEndSkips(t, trail);
    assert (t + trail)[0] == t[0];
    TrimStartSkips(lead, t + trail);
  }

  /** Every literal is accepted, and its value is the number its digits denote. */
  lemma ParseLiteral(lead: string, sign: string, body: string, trail: string)
    requires Literal(lead, sign, body, trail)
    ensures NoSeparator(lead + sign + body + trail)
    ensures ParseInt(lead + sign + body + trail) == Ok(DigitsValue(DigitsOf(body)))
  {
    var t := sign + body;
    var field := lead + sign + body + trail;
    Regroup(lead, sign, body, trail);
    assert Numeric(field) by {
      Pieces(lead, t, trail, body);
    }
    NumericNoSeparator(field);
    assert t[|t| - 1] == body[|body| - 1];
    LiteralTrims(lead, t, trail);
    Unsigned(sign, body);
  }

  /** Dropping a leading '+' from a signed digit group leaves the group. */
  lemma Unsigned(sign: string, body: string)
    requires (sign == "" || sign == "+") && body != [] && IsDigit(body[0])
    ensures var t := sign + body;
      (if t != [] && t[0] == '+' then t[1..] else t) == body
  {
    var t := sign + body;
    if sign == "+" {
      assert t[1..] == body;
    } else {
      assert t == body;
    }
  }

  /** An accepted field cut at its trimming points: whitespace, the trimmed text, whitespace. */
  lemma Decompose(field: string) returns (lead: string, trail: string)
    ensures field == lead + TrimEnd(TrimStart(field)) + trail
    ensures AllSpace(lead) && AllSpace(trail)
  {
    var t0 := TrimStart(field);
    lead := LeadingSpace(field);
    trail := TrailingSpace(t0);
    Reassemble(field, lead, t0, TrimEnd(t0), trail);
  }

  /** What acceptance says about the trimmed text. */
  lemma Accepted(field: string)
    requires NoSeparator(field) && ParseInt(field).Ok?
    ensures var t := TrimEnd(TrimStart(field));
      var body := if t != [] && t[0] == '+' then t[1..] else t;
      Grouped(body) && ParseInt(field).value == DigitsValue(DigitsOf(body))
  {
  }

  /** Every accepted field is a literal, and its value is the number the literal's digits
      denote. */
  lemma ParsedShape(field: string) returns (lead: string, sign: string, body: string, trail: string)
    requires NoSeparator(field) && ParseInt(field).Ok?
    ensures field == lead + sign + body + trail && Literal(lead, sign, body, trail)
    ensures ParseInt(field).value == DigitsValue(DigitsOf(body))
  {
    var t := TrimEnd(TrimStart(field));
    Accepted(field);
    lead, trail := Decompose(field);
    sign, body := SignSplit(t);
    Regroup(lead, sign, body, trail);
  }

  /** A text cut into its optional leading '+' and the rest. */
  lemma SignSplit(t: string) returns (sign: string, body: string)
    ensures sign + body == t && (sign == "" || sign == "+")
    ensures body == if t != [] && t[0] == '+' then t[1..] else t
  {
    if t != [] && t[0] == '+' {
      PlusHead(t);
      sign, body := "+", t[1..];
    } else {
      sign, body := "", t;
      assert sign + body == t;
    }
  }

  /** A field without surrounding whitespace is accepted exactly when it is a digit group
      after an optional '+'. */
  lemma Untrimmed(field: string)
    requires NoSeparator(field) && field != []
    requires !IsSpace(field[0]) && !IsSpace(field[|field| - 1])
    ensures ParseInt(field).Ok? <==> Grouped(if field[0] == '+' then field[1..] else field)
  {
    assert TrimStart(field) == field;
    assert TrimEnd(field) == field;
  }

  /** Underscores are refused at either end of the digits and doubled between them.
      The fields are parameters so that the proof reasons about them symbolically. */
  lemma RejectedUnderscores(b: string, c: string, d: string)
    requires b == "_1" && c == "1_" && d == "1__0"
    ensures NoSeparator(b) && ParseInt(b) == Err(ValueError)
    ensures NoSeparator(c) && ParseInt(c) == Err(ValueError)
    ensures NoSeparator(d) && ParseInt(d) == Err(ValueError)
  {
    assert NoSeparator(b) && NoSeparator(c) && NoSeparator(d);
    assert b[0] == '_' && !Grouped(b);
    Untrimmed(b);
    assert c[0] == '1' && !Grouped(c);
    Untrimmed(c);
    assert d[0] == '1' && !Grouped(d) by {
      assert !IsDigit(d[1]) && !IsDigit(d[2]);
    }
    Untrimmed(d);
  }

  /** Whitespace inside the digits, a sign without digits and a sign after them are refused. */
  lemma RejectedSpaceAndSign(a: string, e: string, f: string)
    requires a == "1 2" && e == "+" && f == "1+"
    ensures NoSeparator(a) && ParseInt(a) == Err(ValueError)
    ensures NoSeparator(e) && ParseInt(e) == Err(ValueError)
    ensures NoSeparator(f) && ParseInt(f) == Err(ValueError)
  {
    assert NoSeparator(a) && NoSeparator(e) && NoSeparator(f);
    assert a[0] == '1' && !Grouped(a) by {
      assert !IsDigit(a[1]) && a[1] != '_';
    }
    Untrimmed(a);
    Untrimmed(e);
    assert f[0] == '1' && !Grouped(f) by {
      assert !IsDigit(f[1]);
    }
    Untrimmed(f);
  }

  /** A field with any character other than digits, underscores, '+' and
      whitespace is refused. */
  lemma StrayCharacterRejected(field: string, k: nat)
    requires NoSeparator(field) && k < |field| && !NumericChar(field[k])
    ensures ParseInt(field) == Err(ValueError)
  {
  }

  /** An ASCII information separator is not whitespace to `int()`: `"\x1c1"` is refused. */
  lemma FileSeparatorRejected()
    ensures ParseInt([28 as char, '1']) == Err(ValueError)
  {
    var field := [28 as char, '1'];
    assert NoSeparator(field) by {
      assert forall k :: 0 <= k < |field| ==> field[k] != Separator;
    }
    StrayCharacterRejected(field, 0);
  }

  /** A plain numeral is read as the number its digits denote. */
  lemma ParseDigits(field: string)
    requires AllDigits(field) && field != []
    ensures NoSeparator(field)
    ensures ParseInt(field) == Ok(DigitsValue(field))
  {
    assert forall k :: 0 <= k < |field| ==> field[k] != Separator;
    assert !IsSpace(field[0]) && !IsSpace(field[|field| - 1]);
    assert TrimStart(field) == field;
    assert TrimEnd(field) == field;
    assert Grouped(field);
  }

  /** The text of the `playing` flag as it is sent. */
  function PlayingText(playing: bool): (text: string)
    ensures NoSeparator(text)
    ensures text == "True" || text == "False"
    ensures playing <==> text == "True"
  {
    if playing then "True" else "False"
  }

  /** `'{}-{}-{}-{}'.format(cellX, cellY, 'yourturn', playing)`. */
  function Encode(x: nat, y: nat, playing: bool): (msg: string)
    ensures msg == Join([Decimal(x), Decimal(y), YourTurn, PlayingText(playing)])
  {
    var msg := Decimal(x) + "-" + Decimal(y) + "-" + YourTurn + "-" + PlayingText(playing);
    var fields := [Decimal(x), Decimal(y), YourTurn, PlayingText(playing)];
    var a, b, c, d := Decimal(x), Decimal(y), YourTurn, PlayingText(playing);
    assert "-" == [Separator];
    assert fields[1..][1..][1..] == [d];
    assert Join(fields[1..][1..]) == c + "-" + d by {
      assert fields[1..][1..] == [c, d];
    }
    assert Join(fields[1..]) == b + "-" + (c + "-" + d) by {
      assert fields[1..] == [b, c, d];
    }
    assert msg == a + "-" + (b + "-" + (c + "-" + d));
    msg
  }

  /** `x, y = int(data[0]), int(data[1])`, evaluated left to right. */
  function Coordinates(fields: seq<string>): (r: Result<(nat, nat)>)
    requires |fields| >= 1 && forall k :: 0 <= k < |fields| ==> NoSeparator(fields[k])
    ensures r.Ok? <==> |fields| >= 2 && ParseInt(fields[0]).Ok? && ParseInt(fields[1]).Ok?
    ensures r.Ok? ==> r.value == (ParseInt(fields[0]).value, ParseInt(fields[1]).value)
    ensures r.Err? && ParseInt(fields[0]).Ok? ==> |fields| < 2 ==> r.fault == IndexError
    ensures ParseInt(fields[0]).Err? ==> r == Err(ValueError)
    ensures |fields| >= 2 && ParseInt(fields[0]).Ok? && ParseInt(fields[1]).Err? ==> r == Err(ValueError)
  {
    match ParseInt(fields[0])
    case Err(f) => Err(f)
    case Ok(x) =>
      if |fields| < 2 then Err(IndexError)
      else
        match ParseInt(fields[1])
        case Err(f) => Err(f)
        case Ok(y) => Ok((x, y))
  }

  /** A received message read as a whole: a move, or the exception reading its first four
      fields raises. */
  function Decode(msg: string): (r: Result<Move>)
    ensures r.Ok? <==> |Split(msg)| >= 4 && Coordinates(Split(msg)).Ok?
    ensures r.Ok? ==> r.value.turnField == Split(msg)[2] && r.value.playingField == Split(msg)[3]
    ensures r.Ok? ==> (r.value.x, r.value.y) == Coordinates(Split(msg)).value
    ensures r.Err? ==>
      r.fault == (if Coordinates(Split(msg)).Err? then Coordinates(Split(msg)).fault else IndexError)
  {
    var fields := Split(msg);
    match Coordinates(fields)
    case Err(f) => Err(f)
    case Ok((x, y)) =>
      if |fields| < 4 then Err(IndexError) else Ok(Move(x, y, fields[2], fields[3]))
  }

  lemma DecimalNoSeparator(n: nat)
    ensures NoSeparator(Decimal(n))
  {
    var s := Decimal(n);
    assert forall k :: 0 <= k < |s| ==> s[k] != Separator;
  }

  /** A numeral `str(n)` is read back by `int()` as `n`. */
  lemma ParseDecimal(n: nat)
    ensures NoSeparator(Decimal(n)) && ParseInt(Decimal(n)) == Ok(n)
  {
    ParseDigits(Decimal(n));
    DecimalValue(n);
  }

  /** A sent move splits back into its four fields. */
  lemma SplitEncode(x: nat, y: nat, playing: bool)
    ensures Split(Encode(x, y, playing)) == [Decimal(x), Decimal(y), YourTurn, PlayingText(playing)]
  {
    var fields := [Decimal(x), Decimal(y), YourTurn, PlayingText(playing)];
    DecimalNoSeparator(x);
    DecimalNoSeparator(y);
    assert NoSeparator(YourTurn);
    assert NoSeparator(PlayingText(playing));
    assert forall k :: 0 <= k < |fields| ==> NoSeparator(fields[k]);
    SplitJoin(fields);
  }

  /** Decoding a sent move recovers its cell and its turn and playing fields. */
  lemma EncodeDecode(x: nat, y: nat, playing: bool)
    ensures Decode(Encode(x, y, playing)) == Ok(Move(x, y, YourTurn, PlayingText(playing)))
  {
    SplitEncode(x, y, playing);
    var fields := Split(Encode(x, y, playing));
    assert fields[0] == Decimal(x) && fields[1] == Decimal(y) && |fields| == 4;
    DecimalCoordinates(fields, x, y);
  }

  /** Two numerals `str(x)` and `str(y)` in front are read back as `(x, y)`. */
  lemma DecimalCoordinates(fields: seq<string>, x: nat, y: nat)
    requires |fields| >= 2 && forall k :: 0 <= k < |fields| ==> NoSeparator(fields[k])
    requires fields[0] == Decimal(x) && fields[1] == Decimal(y)
    ensures Coordinates(fields) == Ok((x, y))
  {
    ParseDecimal(x);
    ParseDecimal(y);
  }
}
