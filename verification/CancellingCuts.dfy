/**
 Two wrong cuts that cancel: the first function loses a comment with its body, and the second, whose
 signature is bare, keeps as much text, in another order. The stripped text then shows neither.
 */
module CancellingCuts {
  import opened Outcomes
  import opened BodyStripping

  const HEAD := "namespace N {"
  const FIRST := "function f(a"
  const OPEN := ")/*"
  const SECOND := "function g()//`}"
  const TURN := "\n{`*/"
  const BRACES := "{}"

  /** A namespace of two functions, the first with a comment that repeats most of the second. */
  function Cancelling(): string {
    HEAD + FIRST + OPEN + (BRACES + SECOND) + TURN + BRACES + BRACES + SECOND + TURN + (BRACES + SECOND) + "}"
  }

  /** The two functions by their positions in this text, and the namespace. */
  const F := Node(13, 53, FunctionLike(None, [25], Some(Span(51, 53))), [])
  const G := Node(55, 94, FunctionLike(None, [], Some(Span(72, 94))), [])
  const NAMESPACE := Node(0, 95, OtherKind, [F, G])

  lemma Lengths()
    ensures |HEAD| == 13 && |FIRST| == 12 && |OPEN| == 3 && |SECOND| == 16 && |TURN| == 5 && |BRACES| == 2
    ensures |Cancelling()| == 95
  {
  }

  lemma RegroupText(h: string, f: string, o: string, w: string, t: string, b: string, s: string, e: string)
    ensures var text, first, second := h + f + o + w + t + b + b + s + t + w + e, f + o + w + t, s + t + w;
            text == h + first + (b + b + second + e) && text == (h + first + b + b) + second + e
  {
  }

  lemma Middle(front: string, middle: string, back: string)
    ensures (front + middle + back)[..|front|] == front
    ensures (front + middle + back)[|front|..|front| + |middle|] == middle
    ensures (front + middle + back)[|front| + |middle|..] == back
  {
  }

  lemma FirstParts(first: string)
    requires first == FIRST + OPEN + (BRACES + SECOND) + TURN
    ensures |first| == 38 && first[..12] == FIRST && first[12..15] == OPEN && first[15] == '{'
  {
    Lengths();
  }

  lemma FirstSlices()
    ensures |Cancelling()| == 95 && Cancelling()[0..13] == HEAD && Cancelling()[13..25] == FIRST
    ensures Cancelling()[25..28] == OPEN && Cancelling()[28] == '{'
    ensures Cancelling()[13..51] == FIRST + OPEN + (BRACES + SECOND) + TURN
  {
    var first, second := FIRST + OPEN + (BRACES + SECOND) + TURN, SECOND + TURN + (BRACES + SECOND);
    var text := Cancelling();
    Lengths();
    RegroupText(HEAD, FIRST, OPEN, BRACES + SECOND, TURN, BRACES, SECOND, "}");
    Middle(HEAD, first, BRACES + BRACES + second + "}");
    FirstParts(first);
    assert text[13..51][..12] == text[13..25] && text[13..51][12..15] == text[25..28] && text[13..51][15] == text[28];
  }

  lemma SecondSlices()
    ensures |Cancelling()| == 95 && Cancelling()[51..53] == Cancelling()[53..55] == BRACES
    ensures Cancelling()[55..72] == SECOND + "\n" && Cancelling()[94..95] == "}"
    ensures Cancelling()[55..94] == SECOND + TURN + (BRACES + SECOND)
  {
    var first, second := FIRST + OPEN + (BRACES + SECOND) + TURN, SECOND + TURN + (BRACES + SECOND);
    var text := Cancelling();
    Lengths();
    RegroupText(HEAD, FIRST, OPEN, BRACES + SECOND, TURN, BRACES, SECOND, "}");
    Middle(HEAD + first + BRACES + BRACES, second, "}");
    BracesInMiddle(HEAD + first, BRACES);
    assert text[..55][51..53] == text[51..53] && text[..55][53..55] == text[53..55];
    assert second[..17] == SECOND + "\n";
    assert text[55..94][..17] == text[55..72];
  }

  lemma BracesInMiddle(front: string, b: string)
    requires |b| == 2
    ensures var n := |front|; (front + b + b)[n..n + 2] == b && (front + b + b)[n + 2..n + 4] == b
  {
  }

  lemma NamespaceParsed()
    ensures Parsed(NAMESPACE)
  {
    assert Parsed(F) && Parsed(G);
    assert |NAMESPACE.children| == 2 && NAMESPACE.children[0] == F && NAMESPACE.children[1] == G;
    assert forall i :: 0 <= i < 2 ==> NAMESPACE.children[i] == F || NAMESPACE.children[i] == G;
  }

  lemma NamespaceEntries()
    ensures EntriesOf(NAMESPACE) == [F, G]
  {
    assert EntriesOf(F) == [F] && EntriesOf(G) == [G];
    assert EntriesBelow(NAMESPACE, 0) == [] && EntriesBelow(NAMESPACE, 1) == [F];
    assert EntriesBelow(NAMESPACE, 2) == [F, G];
  }

  lemma TrimEndOf(s: string, white: char -> bool)
    requires s != [] && !white(s[|s| - 1])
    ensures TrimEnd(s, white) == s
  {
  }

  lemma FirstPieces(white: char -> bool)
    requires !white('*') && !white('/')
    ensures |Cancelling()| == 95 && Bodied(F) && InPlaceOf(Cancelling(), F, white) == FIRST + OPEN
    ensures Bodiless(Cancelling(), F, white) == FIRST + OPEN + (BRACES + SECOND) + TURN
  {
    FirstSlices();
    var text := Cancelling();
    assert OPEN[0] != '{' && OPEN[1] != '{' && OPEN[2] != '{';
    KeptBeforeBrace(text, 25, 28, 53, white);
    TrimEndOf(OPEN, white);
    TrimEndOf(FIRST + OPEN + (BRACES + SECOND) + TURN, white);
  }

  lemma SecondPieces(white: char -> bool)
    requires white('\n') && !white('}')
    ensures |Cancelling()| == 95 && Bodied(G) && InPlaceOf(Cancelling(), G, white) == SECOND + TURN + (BRACES + SECOND)
    ensures Bodiless(Cancelling(), G, white) == SECOND
  {
    SecondSlices();
    BareStays(Cancelling(), G, white);
    assert (SECOND + "\n")[..|SECOND|] == SECOND;
    TrimEndOf(SECOND, white);
  }

  lemma Bodies()
    ensures |Cancelling()| == 95 && InLine([F, G], 0, 95)
  {
    FirstSlices();
  }

  lemma CutNamespace(white: char -> bool)
    requires white('\n') && !white('*') && !white('/') && !white('}')
    ensures |Cancelling()| == 95 && InLine([F, G], 0, 95)
    ensures CutText(Cancelling(), [F, G], 0, 0, 95, white) ==
            HEAD + (FIRST + OPEN) + (BRACES + (SECOND + TURN + (BRACES + SECOND)) + "}")
  {
    var text := Cancelling();
    Bodies();
    FirstSlices();
    SecondSlices();
    FirstPieces(white);
    SecondPieces(white);
    assert CutText(text, [F, G], 2, 94, 95, white) == "}";
    assert CutText(text, [F, G], 1, 53, 95, white) == BRACES + (SECOND + TURN + (BRACES + SECOND)) + "}";
  }

  lemma BodilessNamespace(white: char -> bool)
    requires white('\n') && !white('*') && !white('/') && !white('}')
    ensures |Cancelling()| == 95 && InLine([F, G], 0, 95)
    ensures BodilessText(Cancelling(), [F, G], 0, 0, 95, white) ==
            HEAD + (FIRST + OPEN + (BRACES + SECOND) + TURN) + (BRACES + SECOND + "}")
  {
    var text := Cancelling();
    Bodies();
    FirstSlices();
    SecondSlices();
    FirstPieces(white);
    SecondPieces(white);
    assert BodilessText(text, [F, G], 2, 94, 95, white) == "}";
    assert BodilessText(text, [F, G], 1, 53, 95, white) == BRACES + SECOND + "}";
  }

  lemma SameText(h: string, f: string, o: string, b: string, s: string, t: string, e: string)
    ensures h + (f + o) + (b + (s + t + (b + s)) + e) == h + (f + o + (b + s) + t) + (b + s + e)
  {
  }

  lemma NamespaceWritten(white: char -> bool)
    requires !white('a')
    ensures |Cancelling()| == 95 && InLine([F, G], 0, 95) && AllWritten(Cancelling(), [F, G], white)
    ensures !CutsAtBody(Cancelling(), F)
  {
    var text := Cancelling();
    FirstSlices();
    SecondSlices();
    assert text[51..53] == BRACES && text[51..53][0] == '{';
    assert text[72..94] == (SECOND + TURN + (BRACES + SECOND))[17..] && text[72..94][0] == '{';
    assert text[13..25][11] == 'a';
    assert text[25..51][3] == text[28];
  }

  /** The stripped text is the one without its bodies, although no cut is made at a body. */
  lemma CutsMayCancel(white: char -> bool)
    requires white('\n') && !white('a') && !white('*') && !white('/') && !white('}')
    ensures Parsed(NAMESPACE) && |Cancelling()| == 95 && DeclarationWritten(Cancelling(), NAMESPACE, white)
    ensures Outermost(NAMESPACE, F) && !CutsAtBody(Cancelling(), F)
    ensures Apart(CutsOf(NAMESPACE), 0, 95) && |EntriesOf(NAMESPACE)| == 2
    ensures Replaced(Cancelling(), 0, CutsOf(NAMESPACE), 95, white) == WithoutLast(Cancelling(), NAMESPACE, 2, white)
  {
    NamespaceParsed();
    NamespaceEntries();
    NamespaceWritten(white);
    CutNamespace(white);
    BodilessNamespace(white);
    StrippedInPlace(Cancelling(), NAMESPACE, white);
    EntryIsOutermost(NAMESPACE, F);
    SameText(HEAD, FIRST, OPEN, BRACES, SECOND, TURN, "}");
  }
}
