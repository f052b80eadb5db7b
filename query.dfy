/**
 * Extraction of the authorization code from an HTTP request line
 * (`getAuthCode` and `getQueryMap` in HttpServer.java).
 */
module QueryParsing {
  import opened Wrappers
  import opened JavaStrings

  const Start: string := "GET /?"
  const End: string := " HTTP/1.1"
  const CodeKey: string := "code"

  /**
   * What `getAuthCode` does with one request line: returns a code (possibly
   * empty), returns null, or throws (ArrayIndexOutOfBoundsException from
   * `getQueryMap`).
   */
  datatype AuthResult = Code(code: string) | NoCode | Failed

  /**
   * `param.split("=")[0]` and `param.split("=")[1]`; None when either index
   * is past the end of the split result.
   */
  function ParamPair(param: string): (r: Option<(string, string)>)
    ensures '=' !in param ==> r.None?
    ensures r.Some? ==> '=' !in r.value.0 && '=' !in r.value.1
  {
    var parts := Split(param, '=');
    if |parts| < 2 then None else Some((parts[0], parts[1]))
  }

  /**
   * A parameter parses exactly when some piece after the first is non-empty,
   * and then its name and value are the first two pieces.
   */
  lemma ParamPairReadsPieces(param: string)
    ensures ParamPair(param).Some? <==> exists i :: 1 <= i < |Pieces(param, '=')| && Pieces(param, '=')[i] != ""
    ensures ParamPair(param).Some? ==> ParamPair(param).value == (Pieces(param, '=')[0], Pieces(param, '=')[1])
  {
  }

  /** `param` parses, and its name is `key`. */
  predicate HasName(param: string, key: string) {
    ParamPair(param).Some? && ParamPair(param).value.0 == key
  }

  /**
   * The map `getQueryMap` builds from the parameters: each pair is put in
   * turn, so a later pair overwrites an earlier one with the same name.
   * None when some parameter does not split into a name and a value.
   */
  function QueryMapOf(params: seq<string>): (r: Option<map<string, string>>)
    ensures r.None? <==> exists i :: 0 <= i < |params| && ParamPair(params[i]).None?
  {
    if params == [] then Some(map[])
    else
      var init := params[..|params| - 1];
      var last := params[|params| - 1];
      assert forall i :: 0 <= i < |init| ==> init[i] == params[i];
      match QueryMapOf(init)
      case None => None
      case Some(m) =>
        match ParamPair(last)
        case None => None
        case Some((name, value)) => Some(m[name := value])
  }

  /**
   * Reference definition of a lookup, without a map: the value of the last
   * parameter named `key`, scanning from the end.
   */
  function LastValue(params: seq<string>, key: string): (r: Option<string>)
    ensures r.Some? <==> exists i :: 0 <= i < |params| && HasName(params[i], key)
  {
    if params == [] then None
    else
      var init := params[..|params| - 1];
      var last := params[|params| - 1];
      assert forall i :: 0 <= i < |init| ==> init[i] == params[i];
      if HasName(last, key) then Some(ParamPair(last).value.1) else LastValue(init, key)
  }

  /** The map holds, for every name, the value of that name's last occurrence. */
  lemma {:induction false} QueryMapIsLastValue(params: seq<string>, key: string)
    requires QueryMapOf(params).Some?
    ensures key in QueryMapOf(params).value <==> LastValue(params, key).Some?
    ensures key in QueryMapOf(params).value ==> QueryMapOf(params).value[key] == LastValue(params, key).value
  {
    if params != [] {
      var init := params[..|params| - 1];
      assert forall i :: 0 <= i < |init| ==> init[i] == params[i];
      QueryMapIsLastValue(init, key);
    }
  }

  /** The occurrence after which no parameter has the same name supplies the value. */
  lemma {:induction false} LastValueAt(params: seq<string>, key: string, k: nat)
    requires k < |params| && HasName(params[k], key)
    requires forall j :: k < j < |params| ==> !HasName(params[j], key)
    ensures LastValue(params, key) == Some(ParamPair(params[k]).value.1)
  {
    var init, last := params[..|params| - 1], params[|params| - 1];
    assert params == init + [last];
    LastValueSnoc(init, last, key);
    if k < |params| - 1 {
      assert init[k] == params[k];
      assert forall j :: k < j < |init| ==> init[j] == params[j];
      LastValueAt(init, key, k);
    }
  }

  /** A well-formed parameter with another name can be dropped without changing the value of `key`. */
  lemma {:induction false} LastValueIgnoresOtherNames(pre: seq<string>, p: string, post: seq<string>, key: string)
    requires !HasName(p, key)
    ensures LastValue(pre + [p] + post, key) == LastValue(pre + post, key)
  {
    if post == [] {
      assert pre + [p] + post == pre + [p];
      assert pre + post == pre;
      LastValueSnoc(pre, p, key);
    } else {
      var init, last := post[..|post| - 1], post[|post| - 1];
      assert post == init + [last];
      calc {
        LastValue(pre + [p] + post, key);
        { SnocAssoc(pre + [p], init, last); }
        LastValue((pre + [p] + init) + [last], key);
        { LastValueSnoc(pre + [p] + init, last, key); }
        if HasName(last, key) then Some(ParamPair(last).value.1) else LastValue(pre + [p] + init, key);
        { LastValueIgnoresOtherNames(pre, p, init, key); }
        if HasName(last, key) then Some(ParamPair(last).value.1) else LastValue(pre + init, key);
        { LastValueSnoc(pre + init, last, key); }
        LastValue((pre + init) + [last], key);
        { SnocAssoc(pre, init, last); }
        LastValue(pre + post, key);
      }
    }
  }

  /** Appending one element after a concatenation. */
  lemma SnocAssoc(a: seq<string>, b: seq<string>, x: string)
    ensures a + (b + [x]) == (a + b) + [x]
  {
  }

  /** One step of `LastValue`: the newest parameter is looked at first. */
  lemma LastValueSnoc(init: seq<string>, x: string, key: string)
    ensures LastValue(init + [x], key) == if HasName(x, key) then Some(ParamPair(x).value.1) else LastValue(init, key)
  {
    assert (init + [x])[..|init|] == init;
  }

  /**
   * `getQueryMap(query)`: splits on `&`, splits each parameter on `=` and
   * puts name and value into a map, failing at the first parameter without
   * a value.
   */
  method GetQueryMap(query: string) returns (r: Option<map<string, string>>)
    ensures r == QueryMapOf(Split(query, '&'))
  {
    var params := Split(query, '&');
    var m: map<string, string> := map[];
    var i := 0;
    while i < |params|
      invariant 0 <= i <= |params|
      invariant QueryMapOf(params[..i]) == Some(m)
    {
      var parts := Split(params[i], '=');
      if |parts| < 2 {
        assert params[..i + 1][i] == params[i];
        assert ParamPair(params[i]).None?;
        return None;
      }
      m := m[parts[0] := parts[1]];
      assert params[..i + 1][..i] == params[..i];
      i := i + 1;
    }
    assert params[..i] == params;
    r := Some(m);
  }

  /** What `getAuthCode` makes of the map `getQueryMap` returned, or of its exception. */
  function CodeOf(query: Option<map<string, string>>): (r: AuthResult)
    ensures r == Failed <==> query.None?
    ensures r == NoCode <==> query.Some? && CodeKey !in query.value
    ensures r.Code? ==> query.Some? && CodeKey in query.value && r.code == query.value[CodeKey]
  {
    match query
    case None => Failed
    case Some(m) => if CodeKey in m then Code(m[CodeKey]) else NoCode
  }

  /** A line holding both markers is at least as long as both together: they cannot overlap. */
  lemma MarkersFit(line: string)
    requires IndexOf(line, Start) != -1 && IndexOf(line, End) != -1
    ensures |line| >= |Start| + |End|
  {
    var i := IndexOf(line, Start);
    var j := IndexOf(line, End);
    assert line[i..i + |Start|] == Start;
    assert line[j..j + |End|] == End;
    MarkerLetters();
    if i <= j < i + |Start| {
      SliceAt(line, i, i + |Start|, j);
      SliceAt(line, j, j + |End|, j);
      SliceAt(line, i, i + |Start|, j + 1);
      SliceAt(line, j, j + |End|, j + 1);
      assert false;
    } else if j < i < j + |End| {
      SliceAt(line, i, i + |Start|, i);
      SliceAt(line, j, j + |End|, i);
      assert false;
    }
  }

  /** The letters that keep the two markers from overlapping. */
  lemma MarkerLetters()
    ensures forall k :: 0 <= k < |Start| && Start[k] == ' ' ==> k == 3
    ensures Start[4] == '/' && End[0] == ' ' && End[1] == 'H'
    ensures Start[0] == 'G' && forall k :: 0 <= k < |End| ==> End[k] != 'G'
  {
  }

  /** Indexing into a slice is indexing into the whole. */
  lemma SliceAt(s: string, lo: int, hi: int, k: int)
    ensures 0 <= lo <= k < hi <= |s| ==> s[lo..hi][k - lo] == s[k]
  {
  }

  /**
   * `getAuthCode(line)`: no code unless the line contains both markers;
   * otherwise the text between the first 6 and the last 9 characters is
   * parsed as a query and the value under "code" returned.
   */
  function AuthCodeOf(line: string): (r: AuthResult)
    ensures !(Contains(line, Start) && Contains(line, End)) ==> r == NoCode
    ensures Contains(line, Start) && Contains(line, End) ==>
              |line| >= |Start| + |End| && r == CodeOf(QueryMapOf(Split(line[|Start|..|line| - |End|], '&')))
  {
    if IndexOf(line, Start) == -1 || IndexOf(line, End) == -1 then NoCode
    else
      MarkersFit(line);
      CodeOf(QueryMapOf(Split(line[|Start|..|line| - |End|], '&')))
  }

  /** A line shorter than the `GET /?` marker carries no code. */
  lemma ShortLineHasNoCode(line: string)
    requires |line| < |Start|
    ensures AuthCodeOf(line) == NoCode
  {
  }

  /** The method form of `getAuthCode`, calling the `getQueryMap` loop. */
  method GetAuthCode(line: string) returns (r: AuthResult)
    ensures r == AuthCodeOf(line)
  {
    if IndexOf(line, Start) == -1 || IndexOf(line, End) == -1 {
      return NoCode;
    }
    MarkersFit(line);
    var query := GetQueryMap(line[|Start|..|line| - |End|]);
    r := CodeOf(query);
  }

  /**
   * A parameter's name is the text before its first `=` and its value the
   * text up to the second `=` (what follows is ignored). It fails exactly
   * when the value is empty and only `=` characters follow it: `a`, `a=`,
   * `a==` fail, while `a==x` gives the empty value.
   */
  lemma ParamPairOf(name: string, value: string, tail: string)
    requires '=' !in name && '=' !in value
    requires tail == [] || tail[0] == '='
    ensures ParamPair(name + "=" + value + tail) ==
              if value == "" && forall k :: 0 <= k < |tail| ==> tail[k] == '=' then None
              else Some((name, value))
  {
    var p := name + "=" + value + tail;
    var more := MoreAfterValue(name, value, tail);
    ParamPairFromPieces(p, name, value, more);
  }

  /** A parameter without any `=`, the empty one included, fails to parse. */
  lemma ParamWithoutEqualsFails(param: string)
    requires '=' !in param
    ensures ParamPair(param).None?
  {
  }

  /** The pieces of `name=value` followed by a tail that starts with `=` (or is empty). */
  lemma MoreAfterValue(name: string, value: string, tail: string) returns (more: seq<string>)
    requires '=' !in name && '=' !in value
    requires tail == [] || tail[0] == '='
    ensures Pieces(name + "=" + value + tail, '=') == [name, value] + more
    ensures (forall i :: 0 <= i < |more| ==> more[i] == "") <==> (forall k :: 0 <= k < |tail| ==> tail[k] == '=')
  {
    var p := name + "=" + value + tail;
    assert p == name + ['='] + (value + tail);
    PiecesAfterFirst(name, '=', value + tail);
    if tail == [] {
      PiecesWithoutSep(value, '=');
      assert value + tail == value;
      more := [];
    } else {
      var rest := tail[1..];
      assert value + tail == value + ['='] + rest;
      PiecesAfterFirst(value, '=', rest);
      more := Pieces(rest, '=');
      PiecesAllEmpty(rest, '=');
      assert forall k :: 1 <= k < |tail| ==> tail[k] == rest[k - 1];
    }
  }

  /** How `ParamPair` reads the pieces: the first two, unless all but the first are empty. */
  lemma ParamPairFromPieces(p: string, name: string, value: string, more: seq<string>)
    requires Pieces(p, '=') == [name, value] + more
    ensures ParamPair(p) ==
              if value == "" && forall i :: 0 <= i < |more| ==> more[i] == "" then None
              else Some((name, value))
  {
    var ps := Pieces(p, '=');
    ParamPairReadsPieces(p);
    if value != "" {
      assert ps[1] != "";
      assert ParamPair(p) == Some((ps[0], ps[1]));
    } else if i :| 0 <= i < |more| && more[i] != "" {
      assert ps[i + 2] != "";
      assert ParamPair(p) == Some((ps[0], ps[1]));
    } else {
      assert forall i :: 2 <= i < |ps| ==> ps[i] == more[i - 2];
      assert ParamPair(p).None?;
    }
  }

  /** For a line `GET /?q HTTP/1.1` the query parsed is exactly `q`, taken literally. */
  lemma FramedLine(q: string)
    ensures AuthCodeOf(Start + q + End) == CodeOf(QueryMapOf(Split(q, '&')))
  {
    var line := Start + q + End;
    assert line[0..|Start|] == Start;
    assert OccursAt(line, Start, 0);
    assert line[|Start| + |q|..|Start| + |q| + |End|] == End;
    assert OccursAt(line, End, |Start| + |q|);
    assert line[|Start|..|line| - |End|] == q;
  }

  /**
   * The code is the value of the last parameter named `code`; the request
   * fails when any parameter lacks a value, and has no code otherwise.
   */
  lemma CodeIsLastCodeParameter(params: seq<string>)
    ensures CodeOf(QueryMapOf(params)) ==
              if exists i :: 0 <= i < |params| && ParamPair(params[i]).None? then Failed
              else match LastValue(params, CodeKey)
                   case Some(v) => Code(v)
                   case None => NoCode
  {
    if QueryMapOf(params).Some? {
      QueryMapIsLastValue(params, CodeKey);
    }
  }

  /** Dropping a parameter that parses does not change whether the query fails. */
  lemma FailureIgnoresGoodParameter(pre: seq<string>, p: string, post: seq<string>)
    requires ParamPair(p).Some?
    ensures QueryMapOf(pre + [p] + post).None? <==> QueryMapOf(pre + post).None?
  {
    var long, short := pre + [p] + post, pre + post;
    if QueryMapOf(long).None? {
      var i :| 0 <= i < |long| && ParamPair(long[i]).None?;
      assert short[if i < |pre| then i else i - 1] == long[i];
    }
    if QueryMapOf(short).None? {
      var i :| 0 <= i < |short| && ParamPair(short[i]).None?;
      assert long[if i < |pre| then i else i + 1] == short[i];
    }
  }

  /** A well-formed parameter with another name never changes the code. */
  lemma OtherParametersIgnored(pre: seq<string>, p: string, post: seq<string>)
    requires ParamPair(p).Some? && ParamPair(p).value.0 != CodeKey
    ensures CodeOf(QueryMapOf(pre + [p] + post)) == CodeOf(QueryMapOf(pre + post))
  {
    FailureIgnoresGoodParameter(pre, p, post);
    if QueryMapOf(pre + post).Some? {
      QueryMapIsLastValue(pre + [p] + post, CodeKey);
      QueryMapIsLastValue(pre + post, CodeKey);
      LastValueIgnoresOtherNames(pre, p, post, CodeKey);
    }
  }

  /** `code=c` parses to the pair ("code", c) for any non-empty `c` free of `=`. */
  lemma CodeParameterParses(c: string)
    requires c != "" && '=' !in c
    ensures ParamPair("code=" + c) == Some((CodeKey, c))
  {
    assert "code=" + c == CodeKey + "=" + c + "";
    ParamPairOf(CodeKey, c, "");
  }

  /** A query made of parameters free of `&`, the last one non-empty, splits back into them. */
  lemma FramedParameters(ps: seq<string>)
    requires |ps| >= 1 && ps[|ps| - 1] != ""
    requires forall i :: 0 <= i < |ps| ==> '&' !in ps[i]
    ensures AuthCodeOf(Start + Join(ps, '&') + End) == CodeOf(QueryMapOf(ps))
  {
    SplitOfJoin(ps, '&');
    FramedLine(Join(ps, '&'));
  }

  /** `GET /?code=c HTTP/1.1` delivers `c`, for any non-empty `c` free of `&` and `=`. */
  lemma SingleCodeParameter(c: string)
    requires c != "" && '&' !in c && '=' !in c
    ensures AuthCodeOf(Start + "code=" + c + End) == Code(c)
  {
    var p := "code=" + c;
    CodeParameterParses(c);
    assert '&' !in p;
    FramedParameters([p]);
    assert Join([p], '&') == p;
    assert Start + "code=" + c + End == Start + Join([p], '&') + End;
    assert [p][..0] == [];
  }

  /** Of two parameters with the same name, the second one's value is kept. */
  lemma SecondOfTwoWins(pa: string, pb: string, key: string, a: string, b: string)
    requires ParamPair(pa) == Some((key, a)) && ParamPair(pb) == Some((key, b))
    ensures QueryMapOf([pa, pb]) == Some(map[key := b])
  {
    assert [pa][..0] == [];
    assert QueryMapOf([pa]) == Some(map[key := a]);
    assert [pa, pb][..1] == [pa];
    assert map[key := a][key := b] == map[key := b];
  }

  /** `GET /?code=a&code=b HTTP/1.1` delivers `b`: the later parameter wins. */
  lemma LaterCodeWins(a: string, b: string)
    requires a != "" && '&' !in a && '=' !in a
    requires b != "" && '&' !in b && '=' !in b
    ensures AuthCodeOf(Start + (("code=" + a) + "&" + ("code=" + b)) + End) == Code(b)
  {
    var pa, pb := "code=" + a, "code=" + b;
    CodeParameterParses(a);
    CodeParameterParses(b);
    assert '&' !in pa && '&' !in pb;
    FramedParameters([pa, pb]);
    SecondOfTwoWins(pa, pb, CodeKey, a, b);
    assert Join([pa, pb], '&') == pa + "&" + pb by {
      assert Join([pa, pb], '&') == pa + ['&'] + Join([pb], '&');
    }
  }

  /** `GET /?code==x HTTP/1.1` delivers the empty code: the value ends at the second `=`. */
  lemma DoubledEqualsGivesEmptyCode(x: string)
    requires x != "" && '&' !in x && '=' !in x
    ensures AuthCodeOf(Start + "code==" + x + End) == Code("")
  {
    var p := "code==" + x;
    assert p == CodeKey + "=" + "" + ("=" + x);
    ParamPairOf(CodeKey, "", "=" + x);
    assert ("=" + x)[1] == x[0];
    assert '&' !in p;
    SplitOfJoin([p], '&');
    assert Start + "code==" + x + End == Start + p + End;
    FramedLine(p);
    assert [p][..0] == [];
  }
}
