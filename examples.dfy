/** Concrete runs of the handler pieces: how `--data` is split into form
    pairs, how a response object is reordered, and the status line of a
    failed request. */
module HandlerExamples {
  import opened Text
  import opened JsonModel
  import opened Handlers

  /** `a=1&b=2` is the form with `a` set to `1` and `b` set to `2`. */
  lemma {:induction false} TwoPairs(data: string)
    requires data == "a=1&b=2"
    ensures FormPairs(data) == [("a", "1"), ("b", "2")]
  {
    var pairs := [("a", "1"), ("b", "2")];
    assert JoinForm(pairs) == data by {
      var pieces := seq(|pairs|, k requires 0 <= k < |pairs| => pairs[k].0 + "=" + pairs[k].1);
      assert pieces[0] == "a" + "=" + "1" == "a=1";
      assert pieces[1] == "b" + "=" + "2" == "b=2";
      assert pieces == ["a=1", "b=2"];
      assert pieces[1..] == ["b=2"];
      assert Join(pieces, '&') == "a=1" + ['&'] + Join(["b=2"], '&');
    }
    FormRoundTrip(pairs);
  }

  /** A piece with no `=` is a key with an empty value. */
  lemma BareKey(data: string)
    requires data == "flag"
    ensures FormPairs(data) == [("flag", "")]
  {
    assert '&' !in data && '=' !in data;
    IndexOfAbsent(data, '&');
  }

  /** Empty `--data` is one pair with an empty key and an empty value. */
  lemma EmptyData(data: string)
    requires data == ""
    ensures FormPairs(data) == [("", "")]
  {
    IndexOfAbsent(data, '&');
  }

  /** In `a=b=c` everything after the second `=` is dropped. */
  lemma {:induction false} SecondEqualsDropsRest(piece: string)
    requires piece == "a=b=c"
    ensures FormPair(piece) == ("a", "b")
  {
    var parts := ["a", "b", "c"];
    assert Join(parts, '=') == piece by {
      assert Join(parts, '=') == "a" + ['='] + ("b" + ['='] + Join(["c"], '='));
    }
    JoinSplit(parts, '=');
  }

  /** A key given twice keeps its later value, and the keys come out in
      ascending order whatever order they were given in. */
  lemma {:induction false} ReorderAndOverwrite(es: seq<Entry>)
    requires es == [("b", Number("1")), ("a", Number("2")), ("b", Number("3"))]
    ensures SortedEntries(es) == [("a", Number("2")), ("b", Number("3"))]
  {
    var b1, a2, b3 := es[0], es[1], es[2];
    assert es[..2] == [b1, a2];
    FirstTwoSorted(es[..2]);
    ReplaceLast(b3);
  }

  lemma FirstTwoSorted(es: seq<Entry>)
    requires es == [("b", Number("1")), ("a", Number("2"))]
    ensures SortedEntries(es) == [("a", Number("2")), ("b", Number("1"))]
  {
    var b1, a2 := es[0], es[1];
    assert es[..1] == [b1] && [b1][..0] == [];
    assert SortedEntries([b1]) == [b1];
    assert !Less("b", "a");
    assert Insert([b1], a2) == Insert([], a2) + [b1];
  }

  lemma ReplaceLast(e: Entry)
    requires e == ("b", Number("3"))
    ensures Insert([("a", Number("2")), ("b", Number("1"))], e) == [("a", Number("2")), e]
  {
    var sorted := [("a", Number("2")), ("b", Number("1"))];
    assert sorted[..1] == [("a", Number("2"))];
  }

  /** A 404 prints one line on standard error and exits with 1. */
  lemma {:induction false} NotFoundLine(response: Response, services: Services)
    requires response.status == 404
    ensures PrintResponse(response, services) ==
      Finish([Line(Stderr, "Error: Request failed with status code: 404.")], Exit(1))
  {
    assert DigitChar(4) == '4' && DigitChar(0) == '0';
    assert Decimal(4) == "4";
    assert Decimal(40) == Decimal(4) + ['0'] == "40";
    assert Decimal(404) == Decimal(40) + ['4'] == "404";
    assert !IsSuccess(response.status);
    assert Decimal(response.status as nat) == "404";
    assert "Error: Request failed with status code: " + "404" + "." == "Error: Request failed with status code: 404.";
  }
}
