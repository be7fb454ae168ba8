/**
 * The pieces of java.lang.String and java.lang.Integer that the two loaders rely on,
 * stated over `string`, a sequence of Dafny chars (Unicode scalar values):
 * `startsWith("#")`, `split(",")`, `trim()` and `Integer.parseInt`.
 */
module JavaText {
  import opened Wrappers

  /** `line.startsWith("#")`: the loaders skip such lines as comments. */
  predicate IsComment(line: string)
  {
    |line| > 0 && line[0] == '#'
  }

  /**
   * Every comma-separated field of `s`, empty ones included:
   * there is always one more field than there are commas.
   */
  function SplitFields(s: string): (fields: seq<string>)
    ensures |fields| >= 1
  {
    if |s| == 0 then [""]
    else
      var rest := SplitFields(s[1..]);
      if s[0] == ',' then [""] + rest
      else [[s[0]] + rest[0]] + rest[1..]
  }

  /** No field contains a comma. */
  lemma {:induction false} SplitFieldsCommaFree(s: string)
    ensures forall k :: 0 <= k < |SplitFields(s)| ==> ',' !in SplitFields(s)[k]
  {
    if |s| > 0 {
      SplitFieldsCommaFree(s[1..]);
      var rest := SplitFields(s[1..]);
      if s[0] != ',' {
        var fields := SplitFields(s);
        assert fields[0] == [s[0]] + rest[0];
        forall k | 0 <= k < |fields| ensures ',' !in fields[k] {
          if k > 0 {
            assert fields[k] == rest[k];
          }
        }
      }
    }
  }

  /** The fields put back together with a comma between neighbours. */
  function Join(fields: seq<string>): string
    requires |fields| >= 1
  {
    if |fields| == 1 then fields[0] else fields[0] + "," + Join(fields[1..])
  }

  /** Splitting and joining again gives back the original string. */
  lemma {:induction false} JoinSplitFields(s: string)
    ensures Join(SplitFields(s)) == s
  {
    if |s| > 0 {
      var rest := SplitFields(s[1..]);
      JoinSplitFields(s[1..]);
      if s[0] == ',' {
        assert SplitFields(s) == [""] + rest;
        assert Join(SplitFields(s)) == "" + "," + Join(rest);
        assert s == [','] + s[1..];
      } else if |rest| == 1 {
        assert Join(SplitFields(s)) == [s[0]] + rest[0];
        assert s == [s[0]] + s[1..];
      } else {
        var fields := SplitFields(s);
        assert fields[1..] == rest[1..];
        assert Join(fields) == ([s[0]] + rest[0]) + "," + Join(rest[1..]);
        assert Join(rest) == rest[0] + "," + Join(rest[1..]);
        assert s == [s[0]] + s[1..];
      }
    }
  }

  /** A string without commas is a single field. */
  lemma {:induction false} SplitFieldsNoComma(s: string)
    requires ',' !in s
    ensures SplitFields(s) == [s]
  {
    if |s| > 0 {
      assert ',' !in s[1..] by {
        forall k | 0 <= k < |s[1..]| ensures s[1..][k] != ',' {
          assert s[1..][k] == s[k + 1];
        }
      }
      SplitFieldsNoComma(s[1..]);
      assert s == [s[0]] + s[1..];
    }
  }

  /** A comma-free field followed by a comma splits off as the first field. */
  lemma {:induction false} SplitFieldsAfterComma(a: string, t: string)
    requires ',' !in a
    ensures SplitFields(a + "," + t) == [a] + SplitFields(t)
  {
    if |a| == 0 {
      assert a + "," + t == [','] + t;
      assert (a + "," + t)[1..] == t;
    } else {
      var a' := a[1..];
      assert ',' !in a' by {
        forall k | 0 <= k < |a'| ensures a'[k] != ',' {
          assert a'[k] == a[k + 1];
        }
      }
      SplitFieldsAfterComma(a', t);
      assert (a + "," + t)[1..] == a' + "," + t;
      assert [a[0]] + a' == a;
    }
  }

  /** Joining comma-free fields and splitting again gives back the fields. */
  lemma {:induction false} SplitFieldsJoin(fields: seq<string>)
    requires |fields| >= 1
    requires forall k :: 0 <= k < |fields| ==> ',' !in fields[k]
    ensures SplitFields(Join(fields)) == fields
  {
    if |fields| == 1 {
      SplitFieldsNoComma(fields[0]);
    } else {
      SplitFieldsJoin(fields[1..]);
      SplitFieldsAfterComma(fields[0], Join(fields[1..]));
      assert [fields[0]] + fields[1..] == fields;
    }
  }

  /** The fields with every trailing empty field removed. */
  function DropTrailingEmpty(fields: seq<string>): (kept: seq<string>)
    ensures |kept| <= |fields|
  {
    if |fields| == 0 || fields[|fields| - 1] != "" then fields
    else DropTrailingEmpty(fields[..|fields| - 1])
  }

  /**
   * What is kept is a prefix of the fields that does not end in an empty field, and
   * everything dropped is empty.
   */
  lemma {:induction false} DropTrailingEmptySpec(fields: seq<string>)
    ensures var kept := DropTrailingEmpty(fields);
      && kept == fields[..|kept|]
      && (|kept| > 0 ==> kept[|kept| - 1] != "")
      && forall k :: |kept| <= k < |fields| ==> fields[k] == ""
  {
    if |fields| > 0 && fields[|fields| - 1] == "" {
      DropTrailingEmptySpec(fields[..|fields| - 1]);
      var kept := DropTrailingEmpty(fields);
      assert fields[..|fields| - 1][..|kept|] == fields[..|kept|];
    }
  }

  /**
   * `s.split(",")` in Java: the fields of `s` with trailing empty fields removed,
   * except that a string with no comma at all is its own single field (so "" gives [""]
   * while "," gives no field at all).
   */
  function JavaSplit(s: string): (fields: seq<string>)
    ensures ',' in s ==> |fields| <= |SplitFields(s)|
  {
    if ',' !in s then [s] else DropTrailingEmpty(SplitFields(s))
  }

  /** No field of `split(",")` contains a comma. */
  lemma JavaSplitCommaFree(s: string)
    ensures forall k :: 0 <= k < |JavaSplit(s)| ==> ',' !in JavaSplit(s)[k]
  {
    if ',' in s {
      SplitFieldsCommaFree(s);
      DropTrailingEmptySpec(SplitFields(s));
      var fields := JavaSplit(s);
      forall k | 0 <= k < |fields| ensures ',' !in fields[k] {
        assert fields[k] == SplitFields(s)[k];
      }
    }
  }

  /**
   * Round trip for the loaders' line format: comma-free fields whose last one is
   * not empty come back unchanged from `split(",")` of their comma-joined line.
   */
  lemma JavaSplitJoin(fields: seq<string>)
    requires |fields| >= 1 && fields[|fields| - 1] != ""
    requires forall k :: 0 <= k < |fields| ==> ',' !in fields[k]
    ensures JavaSplit(Join(fields)) == fields
  {
    SplitFieldsJoin(fields);
    if ',' !in Join(fields) {
      SplitFieldsNoComma(Join(fields));
    } else {
      DropTrailingEmptySpec(fields);
    }
  }

  /** The characters `String.trim()` removes: every code unit at or below U+0020. */
  predicate IsTrimmable(c: char)
  {
    c <= ' '
  }

  /** `s` with its leading trimmable characters removed. */
  function TrimStart(s: string): (r: string)
    ensures |r| <= |s|
  {
    if |s| > 0 && IsTrimmable(s[0]) then TrimStart(s[1..]) else s
  }

  /** `s` with its trailing trimmable characters removed. */
  function TrimEnd(s: string): (r: string)
    ensures |r| <= |s|
  {
    if |s| > 0 && IsTrimmable(s[|s| - 1]) then TrimEnd(s[..|s| - 1]) else s
  }

  /** `s.trim()`. */
  function Trim(s: string): (r: string)
    ensures |r| <= |s|
  {
    TrimEnd(TrimStart(s))
  }

  /** TrimStart drops exactly the leading run of trimmable characters. */
  lemma {:induction false} TrimStartSpec(s: string)
    ensures var r := TrimStart(s);
      && r == s[|s| - |r|..]
      && (forall k :: 0 <= k < |s| - |r| ==> IsTrimmable(s[k]))
      && (|r| > 0 ==> !IsTrimmable(r[0]))
  {
    if |s| > 0 && IsTrimmable(s[0]) {
      TrimStartSpec(s[1..]);
      var r := TrimStart(s);
      forall k | 0 <= k < |s| - |r| ensures IsTrimmable(s[k]) {
        if k > 0 {
          assert s[k] == s[1..][k - 1];
        }
      }
    }
  }

  /** TrimEnd drops exactly the trailing run of trimmable characters. */
  lemma {:induction false} TrimEndSpec(s: string)
    ensures var r := TrimEnd(s);
      && r == s[..|r|]
      && (forall k :: |r| <= k < |s| ==> IsTrimmable(s[k]))
      && (|r| > 0 ==> !IsTrimmable(r[|r| - 1]))
  {
    if |s| > 0 && IsTrimmable(s[|s| - 1]) {
      TrimEndSpec(s[..|s| - 1]);
      var r := TrimEnd(s);
      assert s[..|s| - 1][..|r|] == s[..|r|];
    }
  }

  /**
   * `trim()` takes a contiguous piece of `s`, removing only trimmable characters around
   * it, and neither end of the piece is trimmable.
   */
  lemma TrimSpec(s: string)
    ensures var r := Trim(s);
      && (|r| > 0 ==> !IsTrimmable(r[0]) && !IsTrimmable(r[|r| - 1]))
      && r == s[|s| - |TrimStart(s)|..|s| - |TrimStart(s)| + |r|]
      && (forall k :: 0 <= k < |s| - |TrimStart(s)| ==> IsTrimmable(s[k]))
      && (forall k :: |s| - |TrimStart(s)| + |r| <= k < |s| ==> IsTrimmable(s[k]))
  {
    var t := TrimStart(s);
    TrimStartSpec(s);
    TrimEndSpec(t);
    var r := Trim(s);
    var i := |s| - |t|;
    assert r == t[..|r|];
    forall k | i + |r| <= k < |s| ensures IsTrimmable(s[k]) {
      assert s[k] == t[k - i];
    }
  }

  /** A string whose ends are not trimmable is left alone by `trim()`. */
  lemma TrimUnchanged(s: string)
    requires |s| > 0 ==> !IsTrimmable(s[0]) && !IsTrimmable(s[|s| - 1])
    ensures Trim(s) == s
  {
  }

  /** `trim()` is idempotent. */
  lemma TrimIdempotent(s: string)
    ensures Trim(Trim(s)) == Trim(s)
  {
    TrimSpec(s);
    TrimUnchanged(Trim(s));
  }

  /** Bounds of Java's `int`. */
  const MinInt: int := -0x8000_0000
  const MaxInt: int := 0x7fff_ffff

  predicate IsDigit(c: char)
  {
    '0' <= c <= '9'
  }

  predicate AllDigits(s: string)
  {
    forall k :: 0 <= k < |s| ==> IsDigit(s[k])
  }

  /** The value of a string of decimal digits, most significant first. */
  function DigitsValue(ds: string): nat
    requires AllDigits(ds)
  {
    if |ds| == 0 then 0
    else 10 * DigitsValue(ds[..|ds| - 1]) + (ds[|ds| - 1] as int - '0' as int)
  }

  /**
   * `Integer.parseInt(s)`: an optional '-' or '+', then at least one decimal digit,
   * with a value inside the 32-bit range; anything else throws NumberFormatException (None).
   */
  function ParseInt(s: string): (r: Option<int>)
    ensures r.Some? ==> MinInt <= r.value <= MaxInt
  {
    var signed := |s| > 0 && (s[0] == '-' || s[0] == '+');
    var digits := if signed then s[1..] else s;
    if |digits| == 0 || !AllDigits(digits) then None
    else
      var magnitude: int := DigitsValue(digits);
      var value := if signed && s[0] == '-' then -magnitude else magnitude;
      if MinInt <= value <= MaxInt then Some(value) else None
  }

  /** The decimal digits of `n`, without leading zeros. */
  function ShowNat(n: nat): (s: string)
    ensures |s| >= 1 && AllDigits(s)
  {
    if n < 10 then [('0' as int + n) as char]
    else ShowNat(n / 10) + [('0' as int + n % 10) as char]
  }

  /** `Integer.toString(n)`. */
  function ShowInt(n: int): string
  {
    if n < 0 then "-" + ShowNat(-n) else ShowNat(n)
  }

  lemma {:induction false} DigitsValueShowNat(n: nat)
    ensures DigitsValue(ShowNat(n)) == n
  {
    if n >= 10 {
      DigitsValueShowNat(n / 10);
      var s := ShowNat(n);
      assert s[..|s| - 1] == ShowNat(n / 10);
    }
  }

  /** `Integer.parseInt` reads back every 32-bit value that `Integer.toString` writes. */
  lemma ParseIntShowInt(n: int)
    requires MinInt <= n <= MaxInt
    ensures ParseInt(ShowInt(n)) == Some(n)
  {
    var m: nat := if n < 0 then -n else n;
    var ds := ShowNat(m);
    DigitsValueShowNat(m);
    assert IsDigit(ds[0]);
    if n < 0 {
      var s := "-" + ds;
      assert s[0] == '-' && s[1..] == ds;
      assert ShowInt(n) == s;
    } else {
      assert ShowInt(n) == ds;
    }
  }
}
