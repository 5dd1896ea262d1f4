/**
 * The `--options` text and the map `main` builds from it: the text is split
 * on `,`, each piece on `=`, and every piece must give exactly two non-empty
 * parts, the key and the value. A later piece with the same key overrides an
 * earlier one.
 */
module Options {
  import opened Wrappers
  import opened Strings
  import opened Failures

  type OptionMap = map<string, string>

  /** A piece that the loop of `main` accepts: `key=value`, both non-empty. */
  predicate IsPair(piece: string) {
    var parts := Split(piece, '=');
    |parts| == 2 && parts[0] != [] && parts[1] != []
  }

  function KeyOf(piece: string): string {
    Split(piece, '=')[0]
  }

  function ValueOf(piece: string): string {
    var parts := Split(piece, '=');
    if |parts| >= 2 then parts[1] else []
  }

  /**
   * The map the loop of `main` holds after going through `pieces` in order,
   * or the panic that stops it at the first piece that is not a pair.
   */
  function Collect(pieces: seq<string>): Result<OptionMap, Panic>
    decreases |pieces|
  {
    if pieces == [] then Ok(map[])
    else
      match Collect(pieces[..|pieces| - 1])
      case Err(e) => Err(e)
      case Ok(m) =>
        var parts := Split(pieces[|pieces| - 1], '=');
        if |parts| != 2 || parts[0] == [] || parts[1] == [] then Err(InvalidOption(Join(parts, '=')))
        else Ok(m[parts[0] := parts[1]])
  }

  /** The option map for an `--options` text. */
  function ParseOptions(text: string): Result<OptionMap, Panic> {
    Collect(Split(text, ','))
  }

  /** The loop of `main` that fills a `HashMap` from the option text. */
  method BuildOptionMap(text: string) returns (r: Result<OptionMap, Panic>)
    ensures r == ParseOptions(text)
  {
    var pieces := Split(text, ',');
    var m: OptionMap := map[];
    var i := 0;
    while i < |pieces|
      invariant 0 <= i <= |pieces|
      invariant Collect(pieces[..i]) == Ok(m)
    {
      assert pieces[..i + 1][..i] == pieces[..i];
      var parts := Split(pieces[i], '=');
      if |parts| != 2 || parts[0] == [] || parts[1] == [] {
        r := Err(InvalidOption(Join(parts, '=')));
        CollectStopsAtError(pieces, i + 1);
        assert pieces[..|pieces|] == pieces;
        return;
      }
      m := m[parts[0] := parts[1]];
      i := i + 1;
    }
    assert pieces[..i] == pieces;
    r := Ok(m);
  }

  /** Once a prefix fails, the whole sequence fails with the same panic. */
  lemma {:induction false} CollectStopsAtError(pieces: seq<string>, k: nat)
    requires k <= |pieces|
    requires Collect(pieces[..k]).Err?
    ensures Collect(pieces) == Collect(pieces[..k])
    decreases |pieces| - k
  {
    if k < |pieces| {
      assert pieces[..k + 1][..k] == pieces[..k];
      CollectStopsAtError(pieces, k + 1);
    } else {
      assert pieces[..k] == pieces;
    }
  }

  /** The loop gets through exactly when every piece is a pair. */
  lemma {:induction false} CollectOk(pieces: seq<string>)
    ensures Collect(pieces).Ok? <==> forall i :: 0 <= i < |pieces| ==> IsPair(pieces[i])
    decreases |pieces|
  {
    if pieces != [] {
      var init := pieces[..|pieces| - 1];
      CollectOk(init);
      assert forall i :: 0 <= i < |init| ==> init[i] == pieces[i];
    }
  }

  /** The map holds exactly the keys of the pieces. */
  lemma {:induction false} CollectKeys(pieces: seq<string>)
    requires Collect(pieces).Ok?
    ensures Collect(pieces).value.Keys == set p | p in pieces :: KeyOf(p)
    decreases |pieces|
  {
    if pieces != [] {
      var init := pieces[..|pieces| - 1];
      var last := pieces[|pieces| - 1];
      CollectKeys(init);
      assert pieces == init + [last];
      assert (set p | p in pieces :: KeyOf(p)) == (set p | p in init :: KeyOf(p)) + {KeyOf(last)};
    }
  }

  /** For every key, the value is the one from the last piece holding that key. */
  lemma {:induction false} CollectLastWins(pieces: seq<string>, i: nat)
    requires Collect(pieces).Ok?
    requires i < |pieces|
    requires forall j :: i < j < |pieces| ==> KeyOf(pieces[j]) != KeyOf(pieces[i])
    ensures KeyOf(pieces[i]) in Collect(pieces).value
    ensures Collect(pieces).value[KeyOf(pieces[i])] == ValueOf(pieces[i])
    decreases |pieces|
  {
    var init := pieces[..|pieces| - 1];
    if i < |pieces| - 1 {
      assert forall j :: i < j < |init| ==> init[j] == pieces[j];
      CollectLastWins(init, i);
    }
  }

  /** The panic names the first piece that is not a pair, exactly as written. */
  lemma {:induction false} CollectFirstError(pieces: seq<string>, k: nat)
    requires k < |pieces| && !IsPair(pieces[k])
    requires forall j :: 0 <= j < k ==> IsPair(pieces[j])
    ensures Collect(pieces) == Err(InvalidOption(pieces[k]))
  {
    var prefix := pieces[..k];
    CollectOk(prefix);
    assert forall j :: 0 <= j < k ==> prefix[j] == pieces[j];
    assert pieces[..k + 1][..k] == prefix;
    SplitJoin(pieces[k], '=');
    CollectStopsAtError(pieces, k + 1);
  }

  /** A piece is a pair exactly when it holds one `=`, neither first nor last. */
  lemma IsPairShape(piece: string)
    ensures IsPair(piece) <==>
      0 < |piece| && piece[0] != '=' && piece[|piece| - 1] != '=' && multiset(piece)['='] == 1
  {
    SplitCount(piece, '=');
    SplitFirstEmpty(piece, '=');
    SplitLastEmpty(piece, '=');
  }

  /** An option text is accepted exactly when each of its `,`-pieces is a pair. */
  lemma ParseOptionsOk(text: string)
    ensures ParseOptions(text).Ok? <==> forall p :: p in Split(text, ',') ==> IsPair(p)
  {
    CollectOk(Split(text, ','));
  }

  /** The empty text, and any text that starts or ends with a comma, is rejected. */
  lemma {:induction false} ParseOptionsRejectsEmptyPieces(text: string)
    requires text == [] || text[0] == ',' || text[|text| - 1] == ','
    ensures ParseOptions(text).Err?
  {
    var pieces := Split(text, ',');
    CollectOk(pieces);
    SplitFirstEmpty(text, ',');
    SplitLastEmpty(text, ',');
    if text == [] || text[0] == ',' {
      assert !IsPair(pieces[0]);
    } else {
      assert !IsPair(pieces[|pieces| - 1]);
    }
  }

  /** A text without commas that is not a pair is rejected, the panic naming the text. */
  lemma SinglePieceRejected(text: string)
    requires ',' !in text && !IsPair(text)
    ensures ParseOptions(text) == Err(InvalidOption(text))
  {
    SplitWithout(text, ',');
    CollectFirstError([text], 0);
  }

  /** `"size"`, `"a=b=c"` and `"=x"` are all rejected, each naming itself. */
  lemma ParseOptionsRejectsMalformed()
    ensures ParseOptions("size") == Err(InvalidOption("size"))
    ensures ParseOptions("a=b=c") == Err(InvalidOption("a=b=c"))
    ensures ParseOptions("=x") == Err(InvalidOption("=x"))
  {
    SplitWithout("size", '=');
    SinglePieceRejected("size");
    assert "a=b=c" == "a" + ['='] + "b=c";
    assert "b=c" == "b" + ['='] + "c";
    SplitAt("a", '=', "b=c");
    SplitAt("b", '=', "c");
    SplitWithout("c", '=');
    SinglePieceRejected("a=b=c");
    SplitFirstEmpty("=x", '=');
    SinglePieceRejected("=x");
  }

  /** A text of one pair gives the map of that pair. */
  lemma ParseOneOption(k: string, v: string)
    requires k != [] && v != []
    requires '=' !in k && '=' !in v && ',' !in k && ',' !in v
    ensures ParseOptions(k + "=" + v) == Ok(map[k := v])
  {
    var p := k + ['='] + v;
    assert k + "=" + v == p;
    assert ',' !in p;
    SplitWithout(p, ',');
    SplitAt(k, '=', v);
    SplitWithout(v, '=');
    assert Split(k + "=" + v, ',') == [p];
    assert Split(p, '=') == [k, v];
    assert [p][..0] == [];
    assert Collect([p]) == Ok(map[k := v]);
  }

  /** A text of two pairs gives the map of both; on an equal key the second value wins. */
  lemma {:induction false} ParseTwoOptions(k1: string, v1: string, k2: string, v2: string)
    requires k1 != [] && v1 != [] && k2 != [] && v2 != []
    requires '=' !in k1 && '=' !in v1 && '=' !in k2 && '=' !in v2
    requires ',' !in k1 && ',' !in v1 && ',' !in k2 && ',' !in v2
    ensures ParseOptions(k1 + "=" + v1 + "," + k2 + "=" + v2) == Ok(map[k1 := v1][k2 := v2])
  {
    var p1 := k1 + ['='] + v1;
    var p2 := k2 + ['='] + v2;
    assert ',' !in p1 && ',' !in p2;
    assert k1 + "=" + v1 + "," + k2 + "=" + v2 == p1 + [','] + p2;
    SplitAt(p1, ',', p2);
    SplitWithout(p2, ',');
    SplitAt(k1, '=', v1);
    SplitWithout(v1, '=');
    SplitAt(k2, '=', v2);
    SplitWithout(v2, '=');
    var pieces := [p1, p2];
    assert Split(k1 + "=" + v1 + "," + k2 + "=" + v2, ',') == pieces;
    assert Split(p1, '=') == [k1, v1];
    assert Split(p2, '=') == [k2, v2];
    assert [p1][..0] == [];
    assert Collect([p1]) == Ok(map[k1 := v1]);
    assert pieces[..1] == [p1];
    assert Collect(pieces) == Ok(map[k1 := v1][k2 := v2]);
  }

  lemma ParseOptionsExample()
    ensures ParseOptions("size=200x100,filter=nearest") == Ok(map["size" := "200x100", "filter" := "nearest"])
  {
    var k1, v1, k2, v2 := "size", "200x100", "filter", "nearest";
    assert '=' !in k1 && '=' !in v1 && '=' !in k2 && '=' !in v2;
    assert ',' !in k1 && ',' !in v1 && ',' !in k2 && ',' !in v2;
    ParseTwoOptions(k1, v1, k2, v2);
    assert k1 + "=" + v1 + "," + k2 + "=" + v2 == "size=200x100,filter=nearest";
  }
}
