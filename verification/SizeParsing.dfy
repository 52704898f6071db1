/**
 * `parse_sizes` of timing_analysis.py: every raw argument is split on commas,
 * each part is stripped of whitespace, empty parts are skipped, the others go
 * through `int()`, and each value is kept the first time it is seen.
 * `str.split`, `str.strip` and `int()` are modelled here for what the
 * function relies on.
 */
module SizeParsing {
  import opened Wrappers

  /**
   * The ValueError `int()` raises for a part: one that is not an integer
   * literal, or one with more digits than `int()` converts.
   */
  datatype SizeError = Unparsable(part: string)

  // ---------------------------------------------------------------- str.split

  /** `s.split(sep)`: the pieces between separators, at least one. */
  function Split(s: string, sep: char): (parts: seq<string>)
    ensures |parts| >= 1
    decreases |s|
  {
    if s == [] then [[]]
    else
      var rest := Split(s[1..], sep);
      if s[0] == sep then [[]] + rest
      else [[s[0]] + rest[0]] + rest[1..]
  }

  /** `sep.join(parts)`. */
  function Join(parts: seq<string>, sep: char): string
    requires |parts| >= 1
    decreases |parts|
  {
    if |parts| == 1 then parts[0] else parts[0] + [sep] + Join(parts[1..], sep)
  }

  /** Splitting loses nothing but the separators: joining the pieces gives `s` back. */
  lemma {:induction false} SplitJoin(s: string, sep: char)
    ensures Join(Split(s, sep), sep) == s
    ensures forall i :: 0 <= i < |Split(s, sep)| ==> sep !in Split(s, sep)[i]
    decreases |s|
  {
    if s != [] {
      SplitJoin(s[1..], sep);
      var rest := Split(s[1..], sep);
      if s[0] == sep {
        assert Split(s, sep)[1..] == rest;
      } else {
        var parts := Split(s, sep);
        assert parts[1..] == rest[1..];
        if |rest| == 1 {
          assert parts == [[s[0]] + rest[0]];
        } else {
          assert Join(rest, sep) == rest[0] + [sep] + Join(rest[1..], sep);
        }
        assert s == [s[0]] + s[1..];
      }
    }
  }

  /** A string without the separator is a single piece. */
  lemma {:induction false} SplitWithout(s: string, sep: char)
    requires sep !in s
    ensures Split(s, sep) == [s]
    decreases |s|
  {
    if s != [] {
      SplitWithout(s[1..], sep);
      assert [s[0]] + s[1..] == s;
    }
  }

  /** The first separator ends the first piece. */
  lemma {:induction false} SplitAtFirst(a: string, sep: char, b: string)
    requires sep !in a
    ensures Split(a + [sep] + b, sep) == [a] + Split(b, sep)
    decreases |a|
  {
    var s := a + [sep] + b;
    if a == [] {
      assert s[1..] == b;
    } else {
      SplitAtFirst(a[1..], sep, b);
      assert s[1..] == a[1..] + [sep] + b;
      assert [a[0]] + a[1..] == a;
    }
  }

  // ---------------------------------------------------------------- str.strip

  /** The characters `str.isspace()` accepts, which `str.strip()` removes from both ends. */
  predicate IsSpace(c: char) {
    || c == ' ' || ('\t' <= c <= '\r') || ('\U{1c}' <= c <= '\U{1f}')
    || c == '\U{85}' || c == '\U{a0}' || c == '\U{1680}' || ('\U{2000}' <= c <= '\U{200a}')
    || c == '\U{2028}' || c == '\U{2029}' || c == '\U{202f}' || c == '\U{205f}' || c == '\U{3000}'
  }

  predicate AllSpace(s: string) {
    forall i :: 0 <= i < |s| ==> IsSpace(s[i])
  }

  /** `s.lstrip()`. */
  function StripLeft(s: string): (r: string)
    ensures |r| <= |s|
    decreases |s|
  {
    if s != [] && IsSpace(s[0]) then StripLeft(s[1..]) else s
  }

  /** `s.rstrip()`. */
  function StripRight(s: string): (r: string)
    ensures r <= s
    decreases |s|
  {
    if s != [] && IsSpace(s[|s| - 1]) then StripRight(s[..|s| - 1]) else s
  }

  /** `s.strip()`. */
  function Strip(s: string): (r: string)
    ensures |r| <= |s|
  {
    StripRight(StripLeft(s))
  }

  lemma {:induction false} StripLeftSpec(s: string)
    ensures var r := StripLeft(s);
      && |r| <= |s| && r == s[|s| - |r|..]
      && AllSpace(s[..|s| - |r|])
      && (r != [] ==> !IsSpace(r[0]))
    decreases |s|
  {
    if s != [] && IsSpace(s[0]) {
      StripLeftSpec(s[1..]);
      var r := StripLeft(s);
      assert s[1..][..|s| - 1 - |r|] == s[1..|s| - |r|];
    }
  }

  lemma {:induction false} StripRightSpec(s: string)
    ensures var r := StripRight(s);
      && |r| <= |s| && r == s[..|r|]
      && AllSpace(s[|r|..])
      && (r != [] ==> !IsSpace(r[|r| - 1]))
    decreases |s|
  {
    if s != [] && IsSpace(s[|s| - 1]) {
      var init := s[..|s| - 1];
      StripRightSpec(init);
      var r := StripRight(s);
      assert s[|r|..] == init[|r|..] + [s[|s| - 1]];
    }
  }

  /**
   * `strip()` keeps the middle of `s` between two runs of whitespace, and the
   * part it keeps is empty or starts and ends with a non-space: it is empty
   * exactly when `s` is all whitespace.
   */
  lemma StripSpec(s: string)
    ensures var r := Strip(s);
      && (exists i :: 0 <= i <= |s| - |r| && r == s[i..i + |r|] && AllSpace(s[..i]) && AllSpace(s[i + |r|..]))
      && (r != [] ==> !IsSpace(r[0]) && !IsSpace(r[|r| - 1]))
      && (r == [] <==> AllSpace(s))
  {
    var l := StripLeft(s);
    var r := Strip(s);
    StripLeftSpec(s);
    StripRightSpec(l);
    var i := |s| - |l|;
    assert r == s[i..i + |r|];
    assert s[i + |r|..] == l[|r|..];
    if r == [] {
      assert s == s[..i] + l;
    } else {
      assert r[0] == l[0];
    }
  }

  // ---------------------------------------------------------------- int()

  predicate IsDigit(c: char) {
    '0' <= c <= '9'
  }

  /**
   * The body of a base-10 literal `int()` accepts: ASCII digits, with single
   * underscores allowed between two digits.
   */
  predicate DigitString(s: string) {
    && |s| > 0
    && forall i {:trigger s[i]} :: 0 <= i < |s| ==>
         IsDigit(s[i]) || (s[i] == '_' && 0 < i < |s| - 1 && IsDigit(s[i - 1]) && IsDigit(s[i + 1]))
  }

  /** A digit string starts with a digit. */
  lemma DigitStringStartsWithDigit(s: string)
    requires DigitString(s)
    ensures IsDigit(s[0])
  {
  }

  /** The value of the digits of `s`, underscores ignored. */
  function DigitsValue(s: string): nat
    decreases |s|
  {
    if s == [] then 0
    else if s[|s| - 1] == '_' then DigitsValue(s[..|s| - 1])
    else DigitsValue(s[..|s| - 1]) * 10 + (if IsDigit(s[|s| - 1]) then (s[|s| - 1] as int - '0' as int) else 0)
  }

  /**
   * The most digits `int()` converts from a decimal string: CPython's default
   * `sys.get_int_max_str_digits()` (3.11 and later); longer literals raise.
   */
  const MaxStrDigits := 4300

  /** The number of digits in `s`; signs and underscores do not count. */
  function DigitCount(s: string): (n: nat)
    ensures n <= |s|
    decreases |s|
  {
    if s == [] then 0 else (if IsDigit(s[0]) then 1 else 0) + DigitCount(s[1..])
  }

  /** A string made only of digits has as many digits as characters. */
  lemma {:induction false} AllDigitsCount(s: string)
    requires forall i :: 0 <= i < |s| ==> IsDigit(s[i])
    ensures DigitCount(s) == |s|
    decreases |s|
  {
    if s != [] {
      AllDigitsCount(s[1..]);
    }
  }

  /** A digit string `int()` converts: within the digit limit. */
  predicate Convertible(s: string) {
    DigitString(s) && DigitCount(s) <= MaxStrDigits
  }

  /**
   * `int(s)` on an already stripped string: an optional sign followed by a
   * digit string of at most MaxStrDigits digits.
   */
  function ParseInt(s: string): (r: Option<int>)
    ensures r.Some? ==> 0 < DigitCount(s) <= MaxStrDigits
  {
    if |s| > 0 && (s[0] == '+' || s[0] == '-') then
      var magnitude: int := DigitsValue(s[1..]);
      if Convertible(s[1..]) then Some(if s[0] == '-' then -magnitude else magnitude) else None
    else if Convertible(s) then Some(DigitsValue(s))
    else None
  }

  /** `str(n)` for a natural number: its decimal digits, most significant first. */
  function ShowNat(n: nat): (s: string)
    ensures |s| > 0
  {
    (if n < 10 then [] else ShowNat(n / 10)) + [('0' as int + n % 10) as char]
  }

  /** `str(n)`. */
  function Show(n: int): string {
    if n < 0 then "-" + ShowNat(-n) else ShowNat(n)
  }

  lemma {:induction false} ShowNatDigits(n: nat)
    ensures forall i :: 0 <= i < |ShowNat(n)| ==> IsDigit(ShowNat(n)[i])
  {
    if n >= 10 {
      ShowNatDigits(n / 10);
    }
  }

  /** Appending a digit multiplies the value by ten and adds the digit. */
  lemma DigitsValueSnoc(init: string, d: char)
    requires IsDigit(d)
    ensures DigitsValue(init + [d]) == DigitsValue(init) * 10 + (d as int - '0' as int)
  {
    assert (init + [d])[..|init|] == init;
  }

  lemma {:induction false} ShowNatValue(n: nat)
    ensures DigitsValue(ShowNat(n)) == n
  {
    var d := ('0' as int + n % 10) as char;
    var init := if n < 10 then [] else ShowNat(n / 10);
    assert ShowNat(n) == init + [d];
    DigitsValueSnoc(init, d);
    if n >= 10 {
      ShowNatValue(n / 10);
    }
  }

  /** The decimal form of a natural number: digits only, converted exactly when within the limit. */
  lemma ShowNatConvertible(m: nat)
    ensures IsDigit(ShowNat(m)[0])
    ensures DigitsValue(ShowNat(m)) == m
    ensures Convertible(ShowNat(m)) <==> |ShowNat(m)| <= MaxStrDigits
  {
    ShowNatDigits(m);
    ShowNatValue(m);
    AllDigitsCount(ShowNat(m));
    assert DigitString(ShowNat(m));
  }

  /** `int()` on a literal that starts with a digit. */
  lemma ParseIntUnsigned(digits: string)
    requires digits != [] && IsDigit(digits[0])
    ensures ParseInt(digits) == if Convertible(digits) then Some(DigitsValue(digits) as int) else None
  {
  }

  /** `int()` on a literal with a minus sign. */
  lemma ParseIntNegative(digits: string)
    ensures ParseInt("-" + digits) == if Convertible(digits) then Some(-(DigitsValue(digits) as int)) else None
  {
    assert ("-" + digits)[0] == '-' && ("-" + digits)[1..] == digits;
  }

  /**
   * `int(str(n)) == n` for every integer of at most MaxStrDigits digits, negative
   * ones included; the decimal form of a longer one is refused.
   */
  lemma ParseShow(n: int)
    ensures var m := if n < 0 then -n else n;
      ParseInt(Show(n)) == if |ShowNat(m)| <= MaxStrDigits then Some(n) else None
  {
    var m: nat := if n < 0 then -n else n;
    ShowNatConvertible(m);
    if n < 0 {
      ParseIntNegative(ShowNat(m));
    } else {
      ParseIntUnsigned(ShowNat(m));
    }
  }

  // ---------------------------------------------------------------- parse_sizes

  /** The parts of the raw arguments, in order: `chunk.split(",")` for every chunk. */
  function Tokens(raw: seq<string>): (parts: seq<string>)
    ensures |parts| >= |raw|
    decreases |raw|
  {
    if raw == [] then [] else Split(raw[0], ',') + Tokens(raw[1..])
  }

  /** `if value not in sizes: sizes.append(value)`. */
  function AddSize(sizes: seq<int>, v: int): (r: seq<int>)
    ensures sizes <= r && v in r
    ensures forall u :: u in r <==> u in sizes || u == v
    ensures NoDuplicates(sizes) ==> NoDuplicates(r)
  {
    if v in sizes then sizes else sizes + [v]
  }

  /**
   * What the loop does with the parts still to come, `sizes` holding the values
   * kept so far: skip empty parts, stop at the first one `int()` rejects, keep
   * each new value.
   */
  function Gather(sizes: seq<int>, parts: seq<string>): (r: Result<seq<int>, SizeError>)
    ensures r.Success? ==> sizes <= r.value
    decreases |parts|
  {
    if parts == [] then Success(sizes)
    else
      var part := Strip(parts[0]);
      if part == [] then Gather(sizes, parts[1..])
      else match ParseInt(part)
        case None => Failure(Unparsable(part))
        case Some(v) => Gather(AddSize(sizes, v), parts[1..])
  }

  /** `parse_sizes(raw)`. */
  function ParseSizesSpec(raw: seq<string>): Result<seq<int>, SizeError> {
    Gather([], Tokens(raw))
  }

  /** Gathering two runs of parts is gathering the first, then the second from where it stopped. */
  lemma {:induction false} GatherConcat(sizes: seq<int>, a: seq<string>, b: seq<string>)
    ensures Gather(sizes, a + b) ==
      if Gather(sizes, a).Failure? then Gather(sizes, a) else Gather(Gather(sizes, a).value, b)
    decreases |a|
  {
    if a == [] {
      assert a + b == b;
    } else {
      assert (a + b)[0] == a[0] && (a + b)[1..] == a[1..] + b;
      var part := Strip(a[0]);
      if part == [] {
        GatherConcat(sizes, a[1..], b);
      } else if ParseInt(part).Some? {
        GatherConcat(AddSize(sizes, ParseInt(part).value), a[1..], b);
      }
    }
  }

  /** The inner loop of `parse_sizes`: the parts of one chunk. */
  method GatherChunk(sizes: seq<int>, parts: seq<string>) returns (r: Result<seq<int>, SizeError>)
    ensures r == Gather(sizes, parts)
  {
    var kept := sizes;
    var j := 0;
    while j < |parts|
      invariant j <= |parts|
      invariant Gather(kept, parts[j..]) == Gather(sizes, parts)
    {
      assert parts[j..][0] == parts[j] && parts[j..][1..] == parts[j + 1..];
      var part := Strip(parts[j]);
      if part == [] {
        j := j + 1;
        continue;
      }
      var value := ParseInt(part);
      if value.None? {
        return Failure(Unparsable(part));
      }
      if value.value !in kept {
        kept := kept + [value.value];
      }
      j := j + 1;
    }
    assert parts[j..] == [];
    return Success(kept);
  }

  /** `parse_sizes(raw)`: the outer loop over the chunks. */
  method ParseSizes(raw: seq<string>) returns (r: Result<seq<int>, SizeError>)
    ensures r == ParseSizesSpec(raw)
  {
    var sizes: seq<int> := [];
    var c := 0;
    while c < |raw|
      invariant c <= |raw|
      invariant Gather(sizes, Tokens(raw[c..])) == ParseSizesSpec(raw)
    {
      assert raw[c..][0] == raw[c] && raw[c..][1..] == raw[c + 1..];
      var parts := Split(raw[c], ',');
      GatherConcat(sizes, parts, Tokens(raw[c + 1..]));
      var chunk := GatherChunk(sizes, parts);
      if chunk.Failure? {
        return chunk;
      }
      sizes := chunk.value;
      c := c + 1;
    }
    assert raw[c..] == [];
    return Success(sizes);
  }

  // ---------------------------------------------------------------- what parse_sizes promises

  /** The first part, once stripped, that is not empty and that `int()` rejects. */
  function BadPart(parts: seq<string>): Option<string>
    decreases |parts|
  {
    if parts == [] then None
    else if Strip(parts[0]) != [] && ParseInt(Strip(parts[0])).None? then Some(Strip(parts[0]))
    else BadPart(parts[1..])
  }

  /** The values of the non-empty parts, in order (those before a bad part when there is one). */
  function Values(parts: seq<string>): seq<int>
    decreases |parts|
  {
    if parts == [] then []
    else
      match ParseInt(Strip(parts[0]))
      case Some(v) => if Strip(parts[0]) == [] then Values(parts[1..]) else [v] + Values(parts[1..])
      case None => Values(parts[1..])
  }

  /** Keeping each value the first time it appears, after those already in `sizes`. */
  function AddAll(sizes: seq<int>, vs: seq<int>): seq<int>
    decreases |vs|
  {
    if vs == [] then sizes else AddAll(AddSize(sizes, vs[0]), vs[1..])
  }

  predicate NoDuplicates(s: seq<int>) {
    forall i, j :: 0 <= i < j < |s| ==> s[i] != s[j]
  }

  /** The position of the first occurrence of `v` in `s`. */
  function FirstIndex(s: seq<int>, v: int): (i: nat)
    requires v in s
    ensures i < |s| && s[i] == v && v !in s[..i]
    decreases |s|
  {
    if s[0] == v then 0 else 1 + FirstIndex(s[1..], v)
  }

  /**
   * parse_sizes fails exactly when some non-empty part is not an integer,
   * naming the first such part; otherwise it returns the values of the
   * non-empty parts, each kept once, in order of first occurrence.
   */
  lemma {:induction false} GatherSpec(sizes: seq<int>, parts: seq<string>)
    ensures Gather(sizes, parts) ==
      if BadPart(parts).Some? then Failure(Unparsable(BadPart(parts).value)) else Success(AddAll(sizes, Values(parts)))
    decreases |parts|
  {
    if parts != [] {
      var part := Strip(parts[0]);
      if part == [] {
        GatherSpec(sizes, parts[1..]);
      } else if ParseInt(part).Some? {
        GatherSpec(AddSize(sizes, ParseInt(part).value), parts[1..]);
      }
    }
  }

  /** Values only ever come from parts `int()` accepted. */
  lemma {:induction false} ValuesFromParts(parts: seq<string>, v: int)
    requires v in Values(parts)
    ensures exists i :: 0 <= i < |parts| && Strip(parts[i]) != [] && ParseInt(Strip(parts[i])) == Some(v)
    decreases |parts|
  {
    var first := ParseInt(Strip(parts[0]));
    if first.Some? && Strip(parts[0]) != [] && v == first.value {
      assert Strip(parts[0]) != [] && ParseInt(Strip(parts[0])) == Some(v);
    } else {
      ValuesFromParts(parts[1..], v);
      var i :| 0 <= i < |parts[1..]| && Strip(parts[1..][i]) != [] && ParseInt(Strip(parts[1..][i])) == Some(v);
      assert parts[i + 1] == parts[1..][i];
    }
  }

  /**
   * AddAll keeps what it started with as a prefix, appends only values it had
   * not seen, adds no duplicate, and misses no value.
   */
  lemma {:induction false} AddAllSpec(sizes: seq<int>, vs: seq<int>)
    requires NoDuplicates(sizes)
    ensures var r := AddAll(sizes, vs);
      && NoDuplicates(r)
      && sizes <= r
      && (forall v :: v in r <==> v in sizes || v in vs)
    decreases |vs|
  {
    if vs != [] {
      var s' := AddSize(sizes, vs[0]);
      AddAllSpec(s', vs[1..]);
      assert forall v :: v in vs <==> v == vs[0] || v in vs[1..];
    }
  }

  lemma PastPrefixIsNew(r: seq<int>, s: seq<int>, t: nat)
    requires NoDuplicates(r) && s <= r && |s| <= t < |r|
    ensures r[t] !in s
  {
  }

  /**
   * The values AddAll appends come in the order of their first occurrence in
   * `vs`: of any two of them, the one kept first occurs first in `vs`.
   */
  lemma {:induction false} AddAllFirstOccurrence(sizes: seq<int>, vs: seq<int>, i: nat, j: nat)
    requires NoDuplicates(sizes) && vs != []
    requires |sizes| <= i < j < |AddAll(sizes, vs)|
    ensures var r := AddAll(sizes, vs);
      r[i] in vs && r[j] in vs && FirstIndex(vs, r[i]) < FirstIndex(vs, r[j])
    decreases |vs|
  {
    var s' := AddSize(sizes, vs[0]);
    var r := AddAll(s', vs[1..]);
    assert r == AddAll(sizes, vs);
    assert NoDuplicates(s');
    AddAllSpec(s', vs[1..]);
    assert vs[0] in s';
    PastPrefixIsNew(r, s', j);
    if i < |s'| {
      assert r[i] == vs[0];
    } else {
      PastPrefixIsNew(r, s', i);
      assert |r| > |s'|;
      assert vs[1..] != [];
      AddAllFirstOccurrence(s', vs[1..], i, j);
    }
  }

  /**
   * parse_sizes in full: it fails exactly when a non-empty part is not an
   * integer, naming the first such part; otherwise it returns every value of a
   * non-empty part and nothing else, with no duplicate.
   */
  lemma ParseSizesOutcome(raw: seq<string>)
    ensures var parts := Tokens(raw);
      && (ParseSizesSpec(raw).Failure? <==> BadPart(parts).Some?)
      && (ParseSizesSpec(raw).Failure? ==> ParseSizesSpec(raw).error == Unparsable(BadPart(parts).value))
      && (ParseSizesSpec(raw).Success? ==>
            NoDuplicates(ParseSizesSpec(raw).value)
            && forall v :: v in ParseSizesSpec(raw).value <==> v in Values(parts))
  {
    GatherSpec([], Tokens(raw));
    AddAllSpec([], Values(Tokens(raw)));
  }

  /** parse_sizes keeps the values in the order of their first occurrence among the parts. */
  lemma ParseSizesOrder(raw: seq<string>, i: nat, j: nat)
    requires ParseSizesSpec(raw).Success? && i < j < |ParseSizesSpec(raw).value|
    ensures var r := ParseSizesSpec(raw).value; var vs := Values(Tokens(raw));
      r[i] in vs && r[j] in vs && FirstIndex(vs, r[i]) < FirstIndex(vs, r[j])
  {
    GatherSpec([], Tokens(raw));
    AddAllFirstOccurrence([], Values(Tokens(raw)), i, j);
  }

  /** `"1,,2"` gives `[1, 2]`: the empty part between the commas is skipped. */
  lemma TokensOfEmptyPart()
    ensures Tokens(["1,,2"]) == ["1", "", "2"]
  {
    SplitWithout("2", ',');
    SplitAtFirst("", ',', "2");
    SplitAtFirst("1", ',', ",2");
    assert "1,,2" == "1" + [','] + ",2" && ",2" == "" + [','] + "2";
  }

  lemma ParseOneAndTwo()
    ensures Strip("1") == "1" && ParseInt("1") == Some(1)
    ensures Strip("2") == "2" && ParseInt("2") == Some(2)
  {
    assert DigitsValue("1") == 1 && DigitsValue("2") == 2;
    assert DigitString("1") && DigitString("2");
  }

  lemma EmptyPartSkipped()
    ensures ParseSizesSpec(["1,,2"]) == Success([1, 2])
  {
    TokensOfEmptyPart();
    ParseOneAndTwo();
    var parts := ["1", "", "2"];
    assert Strip("") == "";
    assert AddSize([], 1) == [1] && AddSize([1], 2) == [1, 2];
    assert parts[1..] == ["", "2"] && parts[2..] == ["2"] && parts[3..] == [];
    assert Gather([], parts) == Gather([1], parts[1..]);
    assert Gather([1], parts[1..]) == Gather([1], parts[2..]);
    assert Gather([1], parts[2..]) == Gather([1, 2], parts[3..]);
  }

  /** There is no positivity check: `"-3"` is accepted as the size -3. */
  lemma NegativeSizeAccepted()
    ensures ParseSizesSpec(["-3"]) == Success([-3])
  {
    SplitWithout("-3", ',');
    var parts := ["-3"];
    assert Tokens(["-3"]) == parts;
    assert "-3"[1..] == "3";
    assert DigitsValue("3") == 3;
    assert Strip("-3") == "-3";
    assert DigitString("3");
    assert ParseInt("-3") == Some(-3);
    assert AddSize([], -3) == [-3];
    assert parts[1..] == [];
    assert Gather([], parts) == Gather([-3], parts[1..]);
  }

  /** A part that is not an integer raises: `"1,x"` fails on `"x"`. */
  lemma NonNumericRejected()
    ensures ParseSizesSpec(["1,x"]) == Failure(Unparsable("x"))
  {
    var parts := ["1", "x"];
    assert Tokens(["1,x"]) == parts by {
      SplitWithout("x", ',');
      SplitAtFirst("1", ',', "x");
      assert "1,x" == "1" + [','] + "x";
    }
    assert ParseInt("x").None? by {
      assert "x"[0] == 'x';
      if DigitString("x") {
        DigitStringStartsWithDigit("x");
      }
    }
    ParseOneAndTwo();
    assert Strip("x") == "x";
    assert Gather([], parts) == Gather([1], parts[1..]) by {
      assert AddSize([], 1) == [1];
    }
    assert parts[1..] == ["x"];
  }

  /** A run of `n` ones: the decimal form of the repunit with `n` digits. */
  function Ones(n: nat): (s: string)
    ensures |s| == n && forall i :: 0 <= i < n ==> s[i] == '1'
  {
    seq(n, i => '1')
  }

  /**
   * `int()` converts at most MaxStrDigits digits: 4300 ones go through, and
   * `parse_sizes` on 4301 ones raises, naming that part.
   */
  lemma DigitLimitRejected()
    ensures ParseInt(Ones(MaxStrDigits)).Some?
    ensures ParseSizesSpec([Ones(MaxStrDigits + 1)]) == Failure(Unparsable(Ones(MaxStrDigits + 1)))
  {
    var ok := Ones(MaxStrDigits);
    AllDigitsCount(ok);
    assert DigitString(ok);
    var long := Ones(MaxStrDigits + 1);
    AllDigitsCount(long);
    assert ',' !in long by {
      assert forall i :: 0 <= i < |long| ==> long[i] != ',';
    }
    SplitWithout(long, ',');
    assert Tokens([long]) == [long];
    assert !IsSpace(long[0]) && !IsSpace(long[|long| - 1]);
    assert StripLeft(long) == long;
    assert Strip(long) == long;
    assert ParseInt(long).None?;
  }
}
