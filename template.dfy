// render_slurm_template: each mapping key K, in mapping order, replaces every
// left-to-right, non-overlapping "{{K}}" in the text by str(value); any other
// placeholder is left as it is.
module Template {
  import opened Dicts
  import opened Values
  import Strings

  /** The placeholder spelling f"{{{{{key}}}}}", that is "{{" + key + "}}". */
  function Placeholder(key: string): (p: string)
    ensures |p| == |key| + 4
  {
    "{{" + key + "}}"
  }

  /** The text after the keys of params[..n] have been substituted in order. */
  function Render(template: string, params: seq<(string, Value)>): string
    decreases |params|
  {
    if |params| == 0 then template
    else
      var (key, value) := params[|params| - 1];
      Strings.ReplaceAll(Render(template, params[..|params| - 1]), Placeholder(key), ToString(value))
  }

  /** render_slurm_template(template_content, slurm_params). */
  method RenderSlurmTemplate(template: string, params: Dict<Value>) returns (rendered: string)
    ensures rendered == Render(template, params)
  {
    rendered := template;
    for i := 0 to |params|
      invariant rendered == Render(template, params[..i])
    {
      var (key, value) := params[i];
      assert params[..i + 1][..i] == params[..i];
      rendered := Strings.ReplaceAll(rendered, Placeholder(key), ToString(value));
    }
    assert params[..|params|] == params;
  }

  /** Replacing a whole text that is the pattern gives the replacement. */
  lemma ReplaceWhole(pat: string, rep: string)
    requires |pat| > 0
    ensures Strings.ReplaceAll(pat, pat, rep) == rep
  {
    Strings.ReplaceAtStart("", pat, rep);
    assert pat + "" == pat && rep + "" == rep;
  }

  /**
   * A value's text is not protected from later keys: a value that spells
   * the placeholder of a key rendered after it is filled in turn.
   */
  lemma ValueRewrittenByLaterKey()
    ensures Render("{{A}}", [("A", Str("{{B}}")), ("B", Str("x"))]) == "x"
  {
    var params := [("A", Str("{{B}}")), ("B", Str("x"))];
    assert params[..1] == [("A", Str("{{B}}"))] && params[..1][..0] == [];
    assert Placeholder("A") == "{{A}}" && Placeholder("B") == "{{B}}";
    ReplaceWhole("{{A}}", "{{B}}");
    ReplaceWhole("{{B}}", "x");
  }

  /** With an empty mapping the template comes back unchanged. */
  lemma RenderEmpty(template: string)
    ensures Render(template, []) == template
  {
  }

  /** The keys are applied one after another: rendering with p + q is rendering with p, then q. */
  lemma {:induction false} RenderSequential(template: string, p: seq<(string, Value)>, q: seq<(string, Value)>)
    ensures Render(template, p + q) == Render(Render(template, p), q)
    decreases |q|
  {
    if |q| == 0 {
      assert p + q == p;
    } else {
      assert (p + q)[..|p + q| - 1] == p + q[..|q| - 1];
      RenderSequential(template, p, q[..|q| - 1]);
    }
  }

  // ---------------------------------------------------------------------
  // Templates made of literal text and placeholders

  predicate BraceFree(s: string) {
    forall i :: 0 <= i < |s| ==> s[i] != '{' && s[i] != '}'
  }

  /** A piece of a template: literal text, or the placeholder of a key. */
  datatype Piece = Text(text: string) | Slot(key: string)

  /** No piece holds a stray brace: literal text and keys are brace free. */
  predicate WellFormed(pieces: seq<Piece>) {
    forall i :: 0 <= i < |pieces| ==>
      match pieces[i]
      case Text(t) => BraceFree(t)
      case Slot(k) => BraceFree(k)
  }

  /** The template text the pieces spell. */
  function Assemble(pieces: seq<Piece>): string
    decreases |pieces|
  {
    if |pieces| == 0 then ""
    else
      (match pieces[0]
       case Text(t) => t
       case Slot(k) => Placeholder(k)) + Assemble(pieces[1..])
  }

  /** One piece after rendering: a placeholder whose key has a value becomes that value's text. */
  function Resolve(piece: Piece, params: Dict<Value>): Piece {
    match piece
    case Text(_) => piece
    case Slot(k) =>
      match Get(params, k)
      case Some(v) => Text(ToString(v))
      case None => piece
  }

  function ResolveAll(pieces: seq<Piece>, params: Dict<Value>): (r: seq<Piece>)
    ensures |r| == |pieces| && forall i :: 0 <= i < |pieces| ==> r[i] == Resolve(pieces[i], params)
    decreases |pieces|
  {
    if |pieces| == 0 then [] else [Resolve(pieces[0], params)] + ResolveAll(pieces[1..], params)
  }

  /** Every value in the mapping renders without braces. */
  predicate ValuesBraceFree(params: seq<(string, Value)>) {
    forall i :: 0 <= i < |params| ==> BraceFree(ToString(params[i].1))
  }

  // The proof: one str.replace turns exactly the slots of its key into text.

  /** The pieces with every slot of key turned into the text value. */
  function Fill(pieces: seq<Piece>, key: string, value: string): (r: seq<Piece>)
    ensures |r| == |pieces|
    ensures forall i :: 0 <= i < |pieces| ==> r[i] == if pieces[i] == Slot(key) then Text(value) else pieces[i]
    decreases |pieces|
  {
    if |pieces| == 0 then []
    else [if pieces[0] == Slot(key) then Text(value) else pieces[0]] + Fill(pieces[1..], key, value)
  }

  lemma BraceFreeNoMatch(t: string, x: string, key: string)
    requires BraceFree(t)
    ensures forall i :: 0 <= i < |t| ==> !Strings.StartsWith((t + x)[i..], Placeholder(key))
  {
    forall i | 0 <= i < |t| ensures !Strings.StartsWith((t + x)[i..], Placeholder(key)) {
      assert (t + x)[i] == t[i];
      assert Placeholder(key)[0] == '{';
    }
  }

  lemma {:induction false} SlotNoMatch(other: string, x: string, key: string)
    requires BraceFree(other) && BraceFree(key) && other != key
    ensures forall i :: 0 <= i < |Placeholder(other)| ==> !Strings.StartsWith((Placeholder(other) + x)[i..], Placeholder(key))
  {
    var s, p := Placeholder(other) + x, Placeholder(key);
    forall i | 0 <= i < |Placeholder(other)| ensures !Strings.StartsWith(s[i..], p) {
      if i == 0 {
        if |key| < |other| {
          assert s[2 + |key|] == other[|key|] && p[2 + |key|] == '}';
        } else if |key| > |other| {
          assert s[2 + |other|] == '}' && p[2 + |other|] == key[|other|];
        } else {
          assert s[2..2 + |key|] == other && p[2..2 + |key|] == key;
        }
      } else if i == 1 {
        assert s[1..][1] == s[2];
        assert s[2] != '{' by {
          if |other| > 0 { assert s[2] == other[0]; } else { assert s[2] == '}'; }
        }
        assert p[1] == '{';
      } else {
        assert s[i] != '{' by {
          if i < 2 + |other| { assert s[i] == other[i - 2]; } else { assert s[i] == '}'; }
        }
        assert p[0] == '{';
      }
    }
  }

  /** One str.replace of a key's placeholder on well-formed pieces fills exactly that key's slots. */
  lemma {:induction false} ReplaceFills(pieces: seq<Piece>, key: string, value: string)
    requires WellFormed(pieces) && BraceFree(key)
    ensures Strings.ReplaceAll(Assemble(pieces), Placeholder(key), value) == Assemble(Fill(pieces, key, value))
    decreases |pieces|
  {
    var p := Placeholder(key);
    if |pieces| == 0 {
    } else {
      var rest := Assemble(pieces[1..]);
      assert WellFormed(pieces[1..]) by {
        forall i | 0 <= i < |pieces[1..]| ensures pieces[1..][i] == pieces[i + 1] {}
      }
      ReplaceFills(pieces[1..], key, value);
      assert Fill(pieces, key, value)[1..] == Fill(pieces[1..], key, value);
      match pieces[0]
      case Text(t) =>
        assert BraceFree(t) by { assert WellFormed(pieces); }
        BraceFreeNoMatch(t, rest, key);
        Strings.ReplaceSkipsPrefix(t, rest, p, value);
      case Slot(k) =>
        assert BraceFree(k) by { assert WellFormed(pieces); }
        if k == key {
          Strings.ReplaceAtStart(rest, p, value);
        } else {
          SlotNoMatch(k, rest, key);
          Strings.ReplaceSkipsPrefix(Placeholder(k), rest, p, value);
        }
    }
  }

  lemma FillWellFormed(pieces: seq<Piece>, key: string, value: string)
    requires WellFormed(pieces) && BraceFree(value)
    ensures WellFormed(Fill(pieces, key, value))
  {
    var r := Fill(pieces, key, value);
    forall i | 0 <= i < |r| ensures match r[i] case Text(t) => BraceFree(t) case Slot(k) => BraceFree(k) {
      assert match pieces[i] case Text(t) => BraceFree(t) case Slot(k) => BraceFree(k);
    }
  }

  lemma ResolveSnoc(pieces: seq<Piece>, params: Dict<Value>, key: string, value: Value)
    requires key !in Keys(params)
    requires DistinctKeys(params + [(key, value)])
    ensures ResolveAll(pieces, params + [(key, value)]) == Fill(ResolveAll(pieces, params), key, ToString(value))
  {
    var q: Dict<Value> := params + [(key, value)];
    forall i | 0 <= i < |pieces|
      ensures Resolve(pieces[i], q) == if Resolve(pieces[i], params) == Slot(key) then Text(ToString(value)) else Resolve(pieces[i], params)
    {
      assert q[|params|] == (key, value);
      if pieces[i].Slot? && pieces[i].key != key {
        var k := pieces[i].key;
        if k in Keys(params) {
          var j := IndexOf(Keys(params), k);
          assert q[j] == params[j];
        } else {
          assert k !in Keys(q);
        }
      }
    }
  }

  /**
   * Rendering a template made of brace-free text and placeholders, with a
   * mapping whose values render without braces, replaces exactly the
   * placeholders whose key is in the mapping by that key's value, and leaves
   * every other placeholder and all the text as they were.
   */
  lemma {:induction false} RenderResolves(pieces: seq<Piece>, params: Dict<Value>)
    requires WellFormed(pieces)
    requires forall i :: 0 <= i < |params| ==> BraceFree(params[i].0)
    requires ValuesBraceFree(params)
    ensures Render(Assemble(pieces), params) == Assemble(ResolveAll(pieces, params))
    decreases |params|
  {
    if |params| == 0 {
      assert ResolveAll(pieces, params) == pieces;
    } else {
      var init: Dict<Value> := params[..|params| - 1];
      var (key, value) := params[|params| - 1];
      assert params == init + [(key, value)];
      assert key !in Keys(init) by {
        forall j | 0 <= j < |init| ensures init[j].0 != key { assert params[j].0 != params[|params| - 1].0; }
      }
      RenderResolves(pieces, init);
      var mid := ResolveAll(pieces, init);
      assert WellFormed(mid) by {
        forall i | 0 <= i < |mid| ensures match mid[i] case Text(t) => BraceFree(t) case Slot(k) => BraceFree(k) {
          assert match pieces[i] case Text(t) => BraceFree(t) case Slot(k) => BraceFree(k);
          if pieces[i].Slot? && pieces[i].key in Keys(init) {
            var j := IndexOf(Keys(init), pieces[i].key);
            assert BraceFree(ToString(params[j].1));
          }
        }
      }
      ReplaceFills(mid, key, ToString(value));
      ResolveSnoc(pieces, init, key, value);
    }
  }

  lemma {:induction false} AssembleTextsBraceFree(pieces: seq<Piece>)
    requires WellFormed(pieces)
    requires forall i :: 0 <= i < |pieces| ==> pieces[i].Text?
    ensures BraceFree(Assemble(pieces))
    decreases |pieces|
  {
    if |pieces| > 0 {
      assert WellFormed(pieces[1..]) by {
        forall i | 0 <= i < |pieces[1..]| ensures pieces[1..][i] == pieces[i + 1] {}
      }
      AssembleTextsBraceFree(pieces[1..]);
      assert BraceFree(pieces[0].text) by { assert WellFormed(pieces); }
    }
  }

  /**
   * With a complete variable set and no stray delimiters in the template,
   * the rendered script contains no placeholder at all (not even a brace).
   */
  lemma RenderComplete(pieces: seq<Piece>, params: Dict<Value>)
    requires WellFormed(pieces)
    requires forall i :: 0 <= i < |params| ==> BraceFree(params[i].0)
    requires ValuesBraceFree(params)
    requires forall i :: 0 <= i < |pieces| && pieces[i].Slot? ==> pieces[i].key in Keys(params)
    ensures BraceFree(Render(Assemble(pieces), params))
  {
    RenderResolves(pieces, params);
    var r := ResolveAll(pieces, params);
    assert WellFormed(r) by {
      forall i | 0 <= i < |r| ensures match r[i] case Text(t) => BraceFree(t) case Slot(k) => BraceFree(k) {
        assert match pieces[i] case Text(t) => BraceFree(t) case Slot(k) => BraceFree(k);
        if pieces[i].Slot? {
          var j := IndexOf(Keys(params), pieces[i].key);
          assert BraceFree(ToString(params[j].1));
        }
      }
    }
    AssembleTextsBraceFree(r);
  }
}
