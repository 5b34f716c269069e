/**
 What a template file means: the whole file rendered at once.
 */
module TemplateSpec {
  import opened Bytes

  const PERCENT: byte := 37
  const TOKEN_MAX: nat := 63   // sizeof(token) - 1

  /** What the callback sends in place of one token: at least one part, each in a call of its own;
      it returns MORE after all parts but the last. */
  datatype Answer = Answer(first: seq<byte>, more: seq<seq<byte>>)
  {
    function Parts(): seq<seq<byte>> { [first] + more }
  }

  /** The answer for the k-th token of the file, by its name. */
  type Answers = (nat, seq<byte>) -> Answer

  /** A token name as far as the token buffer holds it. */
  function Cut(name: seq<byte>): (r: seq<byte>)
    ensures |r| <= TOKEN_MAX
  {
    if |name| <= TOKEN_MAX then name else name[..TOKEN_MAX]
  }

  /** The position of the next `%`, or the length if there is none. */
  function NextPercent(f: seq<byte>): (e: nat)
    ensures e <= |f|
    ensures PERCENT !in f[..e]
    ensures e < |f| ==> f[e] == PERCENT
    ensures PERCENT !in f ==> e == |f|
  {
    if |f| == 0 || f[0] == PERCENT then 0 else
      var e := NextPercent(f[1..]) + 1;
      assert f[..e] == [f[0]] + f[1..][..e - 1];
      e
  }

  /** Text is copied, `%%` is a percent sign, a token is replaced by all its parts, and a token
      that is not closed is dropped. */
  function Render(f: seq<byte>, answers: Answers, k: nat): seq<byte>
    decreases |f|
  {
    if |f| == 0 then []
    else if f[0] != PERCENT then [f[0]] + Render(f[1..], answers, k)
    else RenderToken([], f[1..], answers, k)
  }

  /** The same from inside a token of which `t` has been read. */
  function RenderToken(t: seq<byte>, f: seq<byte>, answers: Answers, k: nat): seq<byte>
    decreases |f|
  {
    var e := NextPercent(f);
    if e == |f| then []
    else if t == [] && e == 0 then [PERCENT] + Render(f[1..], answers, k)
    else Flatten(answers(k, Cut(t + f[..e])).Parts()) + Render(f[e + 1..], answers, k + 1)
  }

  // ---------------------------------------------------------------- one character at a time

  lemma CutTwice(a: seq<byte>, b: seq<byte>)
    ensures Cut(Cut(a) + b) == Cut(a + b)
  {
    if |a| > TOKEN_MAX {
      assert (a[..TOKEN_MAX] + b)[..TOKEN_MAX] == (a + b)[..TOKEN_MAX];
    }
  }

  /** Characters that the token buffer has no room for change nothing. */
  lemma TokenCharacter(t: seq<byte>, f: seq<byte>, answers: Answers, k: nat)
    requires |f| > 0 && f[0] != PERCENT
    ensures RenderToken(t, f, answers, k) == RenderToken(Cut(t + [f[0]]), f[1..], answers, k)
  {
    var e := NextPercent(f);
    assert NextPercent(f[1..]) == e - 1;
    assert f[..e] == [f[0]] + f[1..][..e - 1];
    assert t + f[..e] == t + [f[0]] + f[1..][..e - 1];
    CutTwice(t + [f[0]], f[1..][..e - 1]);
  }

  lemma TokenCloses(t: seq<byte>, f: seq<byte>, answers: Answers, k: nat)
    requires |f| > 0 && f[0] == PERCENT
    ensures RenderToken(t, f, answers, k) ==
      if t == [] then [PERCENT] + Render(f[1..], answers, k)
      else Flatten(answers(k, Cut(t)).Parts()) + Render(f[1..], answers, k + 1)
  {
    assert t + f[..0] == t;
  }

  // ---------------------------------------------------------------- what it means for authors

  /** Text without percent signs in front of anything is copied. */
  lemma {:induction false} RenderText(text: seq<byte>, f: seq<byte>, answers: Answers, k: nat)
    requires 37 !in text
    ensures Render(text + f, answers, k) == text + Render(f, answers, k)
  {
    if text == [] {
      assert text + f == f;
    } else {
      assert (text + f)[1..] == text[1..] + f;
      RenderText(text[1..], f, answers, k);
    }
  }

  lemma {:induction false} NextPercentAfter(name: seq<byte>, f: seq<byte>)
    requires PERCENT !in name
    ensures NextPercent(name + [PERCENT] + f) == |name|
  {
    var s := name + [PERCENT] + f;
    if name != [] {
      assert s[1..] == name[1..] + [PERCENT] + f;
      NextPercentAfter(name[1..], f);
    }
  }

  /** A token is replaced by its parts, in order; only the first 63 characters of its name count. */
  lemma RenderNamed(name: seq<byte>, f: seq<byte>, answers: Answers, k: nat)
    requires name != [] && 37 !in name
    ensures Render([37] + name + [37] + f, answers, k)
         == Flatten(answers(k, if |name| > 63 then name[..63] else name).Parts()) + Render(f, answers, k + 1)
  {
    var s := name + [PERCENT] + f;
    NextPercentAfter(name, f);
    assert [PERCENT] + name + [PERCENT] + f == [PERCENT] + s;
    assert ([PERCENT] + s)[1..] == s;
    assert [] + s[..|name|] == name && s[|name| + 1..] == f;
  }

  /** A token that is not closed is dropped, however long. */
  lemma RenderUnclosed(name: seq<byte>, answers: Answers, k: nat)
    requires 37 !in name
    ensures Render([37] + name, answers, k) == []
  {
    assert ([37] + name)[1..] == name;
  }

  function Escape(text: seq<byte>): seq<byte> {
    if text == [] then [] else
      (if text[0] == 37 then [37, 37] else [text[0]]) + Escape(text[1..])
  }

  lemma RenderDoubled(rest: seq<byte>, answers: Answers, k: nat)
    ensures Render([PERCENT] + ([PERCENT] + rest), answers, k) == [PERCENT] + Render(rest, answers, k)
  {
    var inner := [PERCENT] + rest;
    assert ([PERCENT] + inner)[1..] == inner && inner[1..] == rest;
    TokenCloses([], inner, answers, k);
  }

  lemma RenderPlain(c: byte, rest: seq<byte>, answers: Answers, k: nat)
    requires c != PERCENT
    ensures Render([c] + rest, answers, k) == [c] + Render(rest, answers, k)
  {
    assert ([c] + rest)[1..] == rest;
  }

  /** Any text at all can be put into a template, with its percent signs doubled. */
  lemma {:induction false} EscapedTextComesOut(text: seq<byte>, f: seq<byte>, answers: Answers, k: nat)
    ensures Render(Escape(text) + f, answers, k) == text + Render(f, answers, k)
  {
    hide Render;
    if text == [] {
      assert Escape(text) + f == f;
      assert [] + Render(f, answers, k) == Render(f, answers, k);
    } else {
      var rest := Escape(text[1..]) + f;
      EscapedTextComesOut(text[1..], f, answers, k);
      if text[0] == PERCENT {
        assert Escape(text) + f == [PERCENT] + ([PERCENT] + rest);
        RenderDoubled(rest, answers, k);
      } else {
        assert Escape(text) + f == [text[0]] + rest;
        RenderPlain(text[0], rest, answers, k);
      }
      assert [text[0]] + (text[1..] + Render(f, answers, k)) == text + Render(f, answers, k);
    }
  }

  // ---------------------------------------------------------------- a renderer under way

  /** A renderer at position `pos` of the file, in ordinary text or in a token of which it holds
      `token`: what it sent, the text it holds back, and what is still to come are the result. */
  ghost predicate Rendering(file: seq<byte>, answers: Answers, out: seq<byte>, held: seq<byte>,
                            inToken: bool, token: seq<byte>, pos: nat, k: nat)
  {
    && pos <= |file|
    && out + held + (if inToken then RenderToken(token, file[pos..], answers, k) else Render(file[pos..], answers, k))
       == Render(file, answers, 0)
  }

  /** The same at the closing percent sign of the k-th token, with j parts of its answer sent. */
  ghost predicate Answering(file: seq<byte>, answers: Answers, out: seq<byte>, name: seq<byte>, pos: nat, k: nat,
                            j: nat) {
    var parts := answers(k, name).Parts();
    && pos < |file| && j < |parts|
    && out + Flatten(parts[j..]) + Render(file[pos + 1..], answers, k + 1) == Render(file, answers, 0)
  }

  lemma NextOf(f: seq<byte>, pos: nat)
    requires pos < |f|
    ensures |f[pos..]| > 0 && f[pos..][0] == f[pos] && f[pos..][1..] == f[pos + 1..]
  {
  }

  lemma RenderingStarts(file: seq<byte>, answers: Answers)
    ensures Rendering(file, answers, [], [], false, [], 0, 0)
  {
    assert file[0..] == file;
  }

  lemma RenderingText(file: seq<byte>, answers: Answers, out: seq<byte>, held: seq<byte>, t: seq<byte>, pos: nat,
                      k: nat)
    requires Rendering(file, answers, out, held, false, t, pos, k)
    requires pos < |file| && file[pos] != PERCENT
    ensures Rendering(file, answers, out, held + [file[pos]], false, t, pos + 1, k)
  {
    NextOf(file, pos);
    var rest := Render(file[pos + 1..], answers, k);
    assert out + held + ([file[pos]] + rest) == out + (held + [file[pos]]) + rest;
  }

  lemma RenderingOpens(file: seq<byte>, answers: Answers, out: seq<byte>, held: seq<byte>, t: seq<byte>, pos: nat,
                       k: nat)
    requires Rendering(file, answers, out, held, false, t, pos, k)
    requires pos < |file| && file[pos] == PERCENT
    ensures Rendering(file, answers, out + held, [], true, [], pos + 1, k)
  {
    NextOf(file, pos);
    assert out + held + [] == out + held;
  }

  lemma RenderingToken(file: seq<byte>, answers: Answers, out: seq<byte>, t: seq<byte>, pos: nat, k: nat)
    requires Rendering(file, answers, out, [], true, t, pos, k)
    requires pos < |file| && file[pos] != PERCENT
    ensures Rendering(file, answers, out, [], true, Cut(t + [file[pos]]), pos + 1, k)
  {
    NextOf(file, pos);
    TokenCharacter(t, file[pos..], answers, k);
  }

  lemma RenderingEscape(file: seq<byte>, answers: Answers, out: seq<byte>, t: seq<byte>, pos: nat, k: nat)
    requires Rendering(file, answers, out, [], true, [], pos, k)
    requires pos < |file| && file[pos] == PERCENT
    ensures Rendering(file, answers, out + [PERCENT], [], false, t, pos + 1, k)
  {
    NextOf(file, pos);
    TokenCloses([], file[pos..], answers, k);
    var rest := Render(file[pos + 1..], answers, k);
    assert out + [] + ([PERCENT] + rest) == out + [PERCENT] + [] + rest;
  }

  lemma RenderingCloses(file: seq<byte>, answers: Answers, out: seq<byte>, t: seq<byte>, pos: nat, k: nat)
    requires Rendering(file, answers, out, [], true, t, pos, k)
    requires pos < |file| && file[pos] == PERCENT && 0 < |t| <= TOKEN_MAX
    ensures Answering(file, answers, out, t, pos, k, 0)
  {
    NextOf(file, pos);
    TokenCloses(t, file[pos..], answers, k);
    var parts := answers(k, t).Parts();
    var rest := Render(file[pos + 1..], answers, k + 1);
    assert parts[0..] == parts;
    assert out + [] + (Flatten(parts) + rest) == out + Flatten(parts) + rest;
  }

  lemma AnsweringPart(file: seq<byte>, answers: Answers, out: seq<byte>, name: seq<byte>, t: seq<byte>, pos: nat,
                      k: nat, j: nat)
    requires Answering(file, answers, out, name, pos, k, j)
    ensures var parts := answers(k, name).Parts();
            var out' := out + parts[j];
            if j + 1 < |parts| then Answering(file, answers, out', name, pos, k, j + 1)
            else Rendering(file, answers, out', [], false, t, pos + 1, k + 1)
  {
    var parts := answers(k, name).Parts();
    var rest := Render(file[pos + 1..], answers, k + 1);
    assert parts[j..][1..] == parts[j + 1..];
    assert out + (parts[j] + Flatten(parts[j + 1..])) + rest == out + parts[j] + Flatten(parts[j + 1..]) + rest;
    if j + 1 == |parts| {
      assert parts[j + 1..] == [];
      assert out + parts[j] + [] + rest == out + parts[j] + rest;
    }
  }

  lemma RenderingSent(file: seq<byte>, answers: Answers, out: seq<byte>, held: seq<byte>, inToken: bool,
                      t: seq<byte>, pos: nat, k: nat)
    requires Rendering(file, answers, out, held, inToken, t, pos, k)
    ensures Rendering(file, answers, out + held, [], inToken, t, pos, k)
  {
    assert out + held + [] == out + held;
  }

  /** At the end of the file nothing is to come; a token that is not closed is dropped. */
  lemma RenderingEnds(file: seq<byte>, answers: Answers, out: seq<byte>, inToken: bool, t: seq<byte>, k: nat)
    requires Rendering(file, answers, out, [], inToken, t, |file|, k)
    ensures out == Render(file, answers, 0)
  {
    assert file[|file|..] == [] && out + [] + [] == out;
  }
}
