/** Join-key normalisation: `clean_id` (app.py:52-59). */
module Ids {
  import opened Text
  import opened Cells

  /** `r` is `t` with exactly one trailing ".0" removed when `t` has one, else `t` itself. */
  predicate DropsOneFloatSuffix(t: string, r: string)
  {
    (EndsWith(t, ".0") ==> r + ".0" == t) && (!EndsWith(t, ".0") ==> r == t)
  }

  /** `t` with one trailing ".0" dropped when it has one; a trimmed `t` leaves a result that starts on no blank. */
  function DropFloatMark(t: string): (r: string)
    ensures DropsOneFloatSuffix(t, r) && |r| <= |t|
    ensures IsTrimmed(t) ==> r == [] || !IsSpace(r[0])
  {
    if EndsWith(t, ".0") then
      assert t[..|t| - 2] + ".0" == t;
      t[..|t| - 2]
    else t
  }

  /**
   * `clean_id(x)`: a missing value stays missing; anything else becomes the text of
   * `str(x).strip()` with one trailing ".0" (the mark a float leaves on an integer id) dropped.
   */
  function CleanId(x: Cell): (r: Cell)
    ensures x.Null? <==> r.Null?
    ensures !x.Null? ==> r.Text? && DropsOneFloatSuffix(Trim(Str(x)), r.s)
    ensures !x.Null? ==> |r.s| <= |Trim(Str(x))| && (r.s == [] || !IsSpace(r.s[0]))
  {
    if x.Null? then Null
    else Text(DropFloatMark(Trim(Str(x))))
  }

  /** A float-rendered id loses its ".0": "123.0" becomes "123". */
  lemma CleanIdDropsFloatMark()
    ensures CleanId(Text("123.0")) == Text("123")
  {
    var s := "123.0";
    assert !IsSpace(s[0]) && !IsSpace(s[|s| - 1]);
    assert Trim(Str(Text(s))) == s;
    assert s[|s| - 2..] == ".0";
    assert DropFloatMark(s) == s[..|s| - 2] == "123";
  }

  /** Surrounding blanks are stripped: " 123 " becomes "123". */
  lemma CleanIdStripsBlanks()
    ensures CleanId(Text(" 123 ")) == Text("123")
  {
    TrimBlanks();
    var c := "123";
    assert c[1..] == "23";
    assert DropFloatMark(c) == c;
  }

  /** `" 123 ".strip()` is "123". */
  lemma TrimBlanks()
    ensures Trim(" 123 ") == "123"
  {
    var c := "123";
    assert IsTrimmed(c);
    TrimPadded(c);
    assert [' '] + c + [' '] == " 123 ";
  }

  /** Only one ".0" goes: "1.0.0" becomes "1.0". */
  lemma CleanIdDropsOneMark()
    ensures CleanId(Text("1.0.0")) == Text("1.0")
  {
    var s := "1.0.0";
    assert !IsSpace(s[0]) && !IsSpace(s[|s| - 1]);
    assert Trim(Str(Text(s))) == s;
    assert s[|s| - 2..] == ".0";
    assert DropFloatMark(s) == s[..|s| - 2] == "1.0";
  }

  /** `str(i)` is a sign and digits, ending in a digit. */
  lemma IntTextShape(i: int)
    ensures forall k :: 0 <= k < |IntText(i)| ==> IntText(i)[k] == '-' || '0' <= IntText(i)[k] <= '9'
    ensures '0' <= IntText(i)[|IntText(i)| - 1] <= '9'
  {
    var n := if i < 0 then -i else i;
    assert IntText(i)[|IntText(i)| - 1] == NatText(n)[|NatText(n)| - 1];
  }

  /** An integer's text is trimmed and has no ".0" mark. */
  lemma {:induction false} IntTextIsCleanKey(i: int)
    ensures IsTrimmed(IntText(i)) && !EndsWith(IntText(i), ".0")
    ensures IsTrimmed(IntText(i) + ".0") && EndsWith(IntText(i) + ".0", ".0")
  {
    var t := IntText(i);
    IntTextShape(i);
    if |t| >= 2 {
      assert t[|t| - 2..][0] == t[|t| - 2];
    }
    var u := t + ".0";
    assert u[0] == t[0] && u[|u| - 1] == '0';
    assert u[|u| - 2..] == ".0";
  }

  /**
   * The purpose of `clean_id`: an integer id, its text, and the text a float column
   * gives it (`str(55.0) == "55.0"`) all become the same key.
   */
  lemma {:induction false} IntegerIdKeysAgree(i: int)
    ensures CleanId(Int(i)) == Text(IntText(i))
    ensures CleanId(Text(IntText(i))) == Text(IntText(i))
    ensures CleanId(Text(IntText(i) + ".0")) == Text(IntText(i))
  {
    var t := IntText(i);
    IntTextIsCleanKey(i);
    assert Trim(t) == t;
    assert Str(Int(i)) == t;
    var u := t + ".0";
    assert Trim(u) == u;
    assert Str(Text(u)) == u;
    assert u[..|u| - 2] == t;
  }

  /** A second cleaning takes the next mark: "1.0" becomes "1". */
  lemma CleanIdDropsLastMark()
    ensures CleanId(Text("1.0")) == Text("1")
  {
    var s := "1.0";
    assert !IsSpace(s[0]) && !IsSpace(s[|s| - 1]);
    assert Trim(Str(Text(s))) == s;
    assert s[|s| - 2..] == ".0";
    assert DropFloatMark(s) == s[..|s| - 2] == "1";
  }

  /** `clean_id` is not idempotent: a key is cleaned once, so "1.0.0" and "1.0" differ from "1". */
  lemma CleanIdNotIdempotent()
    ensures CleanId(CleanId(Text("1.0.0"))) != CleanId(Text("1.0.0"))
  {
    CleanIdDropsOneMark();
    CleanIdDropsLastMark();
    assert "1" != "1.0";
  }
}
