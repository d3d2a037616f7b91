/** Concrete runs of the lexer: the literal forms of the source's tokenizer
    test and the edge cases of the number rule. */
module LexingExamples {
  import opened Wrappers
  import opened Lexing

  /** `"3.14"` converts to 3.14. */
  lemma ParseFloatWithFraction()
    ensures ParseFloat("3.14") == Some(3.14)
  {
    assert IndexOf("3.14", '.') == 1;
    assert "3.14"[..1] == "3" && "3.14"[2..] == "14";
    assert DigitsValue("14") == 14 by {
      assert "14"[..1] == "1";
    }
  }

  /** `".4"` converts to 0.4: the whole part may be empty. */
  lemma ParseFloatWithoutWholePart()
    ensures ParseFloat(".4") == Some(0.4)
  {
    assert IndexOf(".4", '.') == 0;
    assert ".4"[..0] == "" && ".4"[1..] == "4";
  }

  /** `"42"` converts to 42 and `"4."` to 4; a lone `"."` does not convert. */
  lemma ParseFloatEdgeCases()
    ensures ParseFloat("42") == Some(42.0)
    ensures ParseFloat("4.") == Some(4.0)
    ensures ParseFloat(".") == None
  {
    assert DigitsValue("42") == 42 by {
      assert "42"[..1] == "4";
    }
    assert IsDecimalLiteral("4.") by {
      assert IsNumeric("4."[0]);
    }
    assert IndexOf("4.", '.') == 1;
    assert "4."[..1] == "4" && "4."[2..] == "";
    assert !IsDecimalLiteral(".");
  }

  /** The only maximal numeric run at the start of `3.14.5` is `3.14`. */
  lemma SecondDotRunEnd(p: nat)
    requires MaximalNumberRun("3.14.5", 0, p) && 0 < p
    ensures p == 4
  {
    var input := "3.14.5";
    assert DotCount("3.14.") == 2;
    assert DotCount(input[0..1]) == 0 by {
      assert input[0..1] == "3";
    }
    assert input[2] == '1' && input[3] == '4';
    if p >= 5 {
      assert input[0..p] == "3.14." + input[5..p];
      DotCountAppend("3.14.", input[5..p]);
    }
  }

  /** A second dot ends a number: `3.14.5` starts with the number 3.14,
      and the lexer stops in front of the second dot. */
  lemma SecondDotEndsNumber()
    ensures NextToken(New("3.14.5")).value == (Number(3.14), At("3.14.5", 4))
  {
    var input := "3.14.5";
    var l' := NextToken(New(input)).value.1;
    assert SkipWhitespace(New(input)) == New(input);
    SecondDotRunEnd(l'.position);
    assert input[0..4] == "3.14";
    ParseFloatWithFraction();
  }

  /** The only maximal numeric run at index 1 of ` .4)` is `.4`. */
  lemma LeadingDotRunEnd(p: nat)
    requires MaximalNumberRun(" .4)", 1, p)
    ensures p == 3
  {
    var input := " .4)";
    assert input[1] == '.' && input[2] == '4' && input[3] == ')';
    assert DotCount(input[1..2]) == 1 by {
      assert input[1..2] == ".";
    }
  }

  /** A number may start with its dot: ` .4)` yields the number 0.4 and
      stops in front of the parenthesis. */
  lemma LeadingDotNumber()
    ensures NextToken(New(" .4)")).value == (Number(0.4), At(" .4)", 3))
  {
    var input := " .4)";
    var s := SkipWhitespace(New(input));
    assert s.position == 1 by {
      assert IsWhitespace(input[0]) && !IsWhitespace(input[1]);
    }
    LeadingDotRunEnd(NextToken(New(input)).value.1.position);
    assert input[1..3] == ".4";
    ParseFloatWithoutWholePart();
  }

  /** A run that does not convert yields the number 0 rather than an
      error: a lone dot lexes as `Number(0.0)`. */
  lemma LoneDotIsZero()
    ensures NextToken(New(".;")).value == (Number(0.0), At(".;", 1))
  {
    var input := ".;";
    assert SkipWhitespace(New(input)) == New(input);
    assert NextToken(New(input)).value.1.position == 1;
    assert input[0..1] == ".";
    ParseFloatEdgeCases();
  }

  /** An identifier may start with `_` and continue with digits: `_4f`
      is one identifier. */
  lemma UnderscoreIdentifier()
    ensures NextToken(New("_4f")).value.0 == Identifier("_4f")
  {
    var input := "_4f";
    assert SkipWhitespace(New(input)) == New(input);
    assert NextToken(New(input)).value.1.position == 3;
    assert input[0..3] == input;
  }
}
