/** Texts as Python prints and parses them. The laws of `JsonText` fix that printing and parsing
    agree; these fix which texts they agree on. */
module JsonExamples {
  import opened Wrappers
  import opened JsonText
  import opened Ordering

  lemma PrintedArray()
    ensures Render(Arr([Num("1"), Bool(true), Null])) == "[1, true, null]"
  {
    var items := [Num("1"), Bool(true), Null];
    assert items[1..] == [Bool(true), Null] && items[1..][1..] == [Null];
    assert RenderItems([Null]) == "null";
    assert RenderItems(items[1..]) == "true" + (", " + "null");
    assert RenderItems(items) == "1" + (", " + ("true" + (", " + "null")));
  }

  lemma PrintedMember(c: char, v: Json)
    requires c == 'a' || c == 'b'
    ensures RenderMember(Member([c], v)) == "\"" + [c] + "\": " + Render(v)
  {
    assert [c][1..] == "" && Escape([c]) == [c] + Escape("");
  }

  lemma PrintedObject()
    ensures Render(Obj([Member("a", Bool(false)), Member("b", Null)])) == "{\"a\": false, \"b\": null}"
  {
    var (m, n) := (Member("a", Bool(false)), Member("b", Null));
    PrintedMember('a', Bool(false));
    PrintedMember('b', Null);
    assert [m, n][1..] == [n] && RenderMembers([n]) == RenderMember(n);
    assert RenderMembers([m, n]) == RenderMember(m) + (", " + RenderMember(n));
  }

  /** Two characters for quotes, backslashes and common control characters. */
  lemma PrintedShort()
    ensures EscapeChar('\"') == "\\\"" && EscapeChar('\\') == "\\\\" && EscapeChar('/') == "/"
    ensures EscapeChar('\n') == "\\n" && EscapeChar('\r') == "\\r" && EscapeChar('\t') == "\\t"
    ensures EscapeChar('\U{8}') == "\\b" && EscapeChar('\U{C}') == "\\f"
  {
  }

  /** Hexadecimal for the rest that is not printable ASCII. */
  lemma PrintedHex()
    ensures EscapeChar('\U{E9}') == "\\u00e9" && EscapeChar('\U{7F}') == "\\u007f"
  {
    assert Hex4(0xE9) == "00e9" && Hex4(0x7F) == "007f";
  }

  /** In surrogate pairs past 16 bits. */
  lemma PrintedPair()
    ensures EscapeChar('\U{1F600}') == "\\ud83d\\ude00"
  {
    assert SurrogatePair(0xD83D, 0xDE00) == "d83d" + ("\\u" + "de00");
  }

  // ----- The order of canonical members -----

  lemma SortedKeysAscend(ms: seq<Member>)
    requires DistinctKeys(ms) && SortedBy(KeyLess, ms)
    ensures forall i, j :: 0 <= i < j < |ms| ==> StrLess(ms[i].key, ms[j].key)
  {
    forall i, j | 0 <= i < j < |ms| ensures StrLess(ms[i].key, ms[j].key) {
      StrLessTotal(ms[i].key, ms[j].key);
    }
  }

  /** Canonical members ascend by key, and are those of the object, each with its own canonical
      value. */
  lemma CanonicalKeysAscend(ms: seq<Member>)
    requires DistinctKeys(ms)
    ensures Canon(Obj(ms)).Obj?
    ensures var cs := Canon(Obj(ms)).members;
            && (forall i, j :: 0 <= i < j < |cs| ==> StrLess(cs[i].key, cs[j].key))
            && (forall m :: m in cs <==> exists n :: n in ms && m == Member(n.key, Canon(n.value)))
  {
    var cs := Canon(Obj(ms)).members;
    SortedMembers(ms);
    SortedKeysAscend(cs);
    forall m ensures m in cs <==> exists n :: n in ms && m == Member(n.key, Canon(n.value)) {
      CanonMembersImage(ms, m);
      assert forall n :: CanonMember(n) == Member(n.key, Canon(n.value));
    }
  }

  // ----- Parsing what was printed elsewhere -----

  /** Escapes that printing never uses are read all the same: a solidus, hexadecimal in either
      case. Others are refused, and so is a bare control character. */
  lemma ReadElsewhere(rest: string)
    ensures ReadEscape("/" + rest) == Some(('/', rest))
    ensures HexValue('A') == HexValue('a') == Some(10) && HexValue('F') == HexValue('f') == Some(15)
    ensures HexValue('G') == None && HexValue('g') == None
    ensures ReadEscape("x" + rest) == None && ReadChar("\n" + rest) == None && ReadEscape("") == None
  {
    assert ("/" + rest)[1..] == rest;
  }

  /** A number has no leading zero. */
  lemma LeadingZeroRefused()
    ensures !IsNumber("01")
  {
    assert "01"[0..] == "01" && "01"[1..] == "1";
    assert IntLen("01") == 1 && FracLen("1") == 0 && ExpLen("1") == 0;
  }

  /** A point needs a digit after it. */
  lemma BarePointRefused()
    ensures !IsNumber("1.")
  {
    assert "1."[0..] == "1." && "1."[1..] == "." && "."[1..] == "";
    assert DigitsLen(".") == 0 && IntLen("1.") == 1 && FracLen(".") == 0 && ExpLen(".") == 0;
  }

  lemma FractionAccepted()
    ensures IsNumber("-0.5")
  {
    assert "-0.5"[1..] == "0.5" && "-0.5"[2..] == ".5" && ".5"[1..] == "5" && "5"[1..] == "" && "-0.5"[4..] == "";
    assert DigitsLen("5") == 1 && IntLen("-0.5") == 2 && FracLen(".5") == 2 && ExpLen("") == 0;
  }

  predicate Blank(s: string) {
    forall i :: 0 <= i < |s| ==> s[i] == ' ' || s[i] == '\t' || s[i] == '\n' || s[i] == '\r'
  }

  lemma {:induction false} SkipBlank(w: string, s: string)
    requires Blank(w) && (s == "" || !IsSpace(s[0]))
    ensures SkipSpace(w + s) == s
  {
    if w == "" {
      assert w + s == s;
    } else {
      assert (w + s)[1..] == w[1..] + s;
      SkipBlank(w[1..], s);
    }
  }

  /** Blanks before and after a value do not matter. */
  lemma LoadsPadded(before: string, v: Json, after: string)
    requires Valid(v) && Blank(before) && Blank(after)
    ensures Loads(before + (Render(v) + after)) == Some(v)
  {
    RenderStartsValue(v);
    SkipBlank(before, Render(v) + after);
    ReadRenderedValue(v, after);
    assert after + "" == after;
    SkipBlank(after, "");
  }

  /** The i-th member is the last one under its key. */
  predicate LastUnderKey(ms: seq<Member>, i: nat) {
    i < |ms| && forall j :: i < j < |ms| ==> ms[j].key != ms[i].key
  }

  lemma {:induction false} UpsertHolds(ms: seq<Member>, m: Member, x: Member)
    requires DistinctKeys(ms)
    ensures x in Upsert(ms, m) <==> x == m || (x in ms && x.key != m.key)
  {
    if ms != [] {
      assert ms == [ms[0]] + ms[1..];
      if ms[0].key == m.key {
        forall n | n in ms[1..] ensures n.key != m.key {
          var j :| 0 <= j < |ms[1..]| && ms[1..][j] == n;
          assert ms[j + 1] == n;
        }
      } else {
        UpsertHolds(ms[1..], m, x);
      }
    }
  }

  lemma {:induction false} DictOfDistinct(ms: seq<Member>)
    ensures DistinctKeys(DictOf(ms))
  {
    if ms != [] {
      DictOfDistinct(ms[..|ms| - 1]);
      UpsertDistinct(DictOf(ms[..|ms| - 1]), ms[|ms| - 1]);
    }
  }

  /** An object that repeats a key holds the last member under each. */
  lemma {:induction false} LastMemberCounts(ms: seq<Member>, x: Member)
    ensures x in DictOf(ms) <==> exists i: nat :: LastUnderKey(ms, i) && ms[i] == x
  {
    if ms != [] {
      var n := |ms| - 1;
      var init := ms[..n];
      assert ms == init + [ms[n]];
      LastMemberCounts(init, x);
      DictOfDistinct(init);
      UpsertHolds(DictOf(init), ms[n], x);
      assert LastUnderKey(ms, n);
      if i: nat :| LastUnderKey(init, i) && init[i] == x && x.key != ms[n].key {
        assert LastUnderKey(ms, i);
      }
      if i: nat :| LastUnderKey(ms, i) && ms[i] == x && i < n {
        assert LastUnderKey(init, i) && init[i] == x;
      }
    }
  }
}
