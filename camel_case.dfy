/**
 * `exception_to_message`: the class name of an exception, split into its
 * CamelCase words, lower-cased and joined with single spaces
 * (`HTTPError` becomes `http error`).
 *
 * The regular expression of the source matches, from each word start, the
 * shortest non-empty run of characters that ends at a word boundary or at
 * the end of the name. A boundary sits before an upper-case letter that
 * follows a lower-case one, and before the last capital of a run of
 * capitals when a lower-case letter follows it.
 */
module CamelCase {
  import opened Base
  import opened Text

  /** Position `p` (strictly inside `s`) is a word boundary of the regular expression. */
  predicate Boundary(s: string, p: int)
    requires 0 < p < |s|
  {
    || (IsLower(s[p - 1]) && IsUpper(s[p]))
    || (IsUpper(s[p - 1]) && p + 1 < |s| && IsUpper(s[p]) && IsLower(s[p + 1]))
  }

  /** End of the lazy match that starts before position `p`: the first boundary at or after `p`, else the end. */
  function NextCut(s: string, p: nat): (q: nat)
    requires 0 < p <= |s|
    ensures p <= q <= |s|
    ensures q < |s| ==> Boundary(s, q)
    ensures forall k :: p <= k < q ==> !Boundary(s, k)
    decreases |s| - p
  {
    if p == |s| || Boundary(s, p) then p else NextCut(s, p + 1)
  }

  /** The successive matches of `finditer` over the class name. */
  function CamelWords(s: string): seq<string>
    decreases |s|
  {
    if s == [] then []
    else
      var q := NextCut(s, 1);
      [s[..q]] + CamelWords(s[q..])
  }

  function LowerAll(words: seq<string>): (r: seq<string>)
    ensures |r| == |words|
  {
    seq(|words|, i requires 0 <= i < |words| => LowerString(words[i]))
  }

  /** `' '.join(m.group(0).lower() for m in finditer(..., identifier))` */
  function HumanizeIdentifier(identifier: string): string {
    Join(" ", LowerAll(CamelWords(identifier)))
  }

  /** `exception_to_message(exception)` */
  function ExceptionToMessage(e: Exception): string {
    HumanizeIdentifier(e.ClassName())
  }

  /** Positions, inside the concatenation of `words`, where one word ends and the next begins. */
  function Cuts(words: seq<string>): set<int> {
    if |words| <= 1 then {}
    else {|words[0]|} + Shift(Cuts(words[1..]), |words[0]|)
  }

  function Shift(positions: set<int>, offset: int): set<int> {
    set p | p in positions :: p + offset
  }

  /** The words are non-empty and spell out the name again. */
  lemma {:induction false} CamelWordsCover(s: string)
    ensures Flatten(CamelWords(s)) == s
    ensures forall i :: 0 <= i < |CamelWords(s)| ==> CamelWords(s)[i] != []
    decreases |s|
  {
    if s != [] {
      var q := NextCut(s, 1);
      CamelWordsCover(s[q..]);
      var w := CamelWords(s);
      assert w[1..] == CamelWords(s[q..]);
      assert s == s[..q] + s[q..];
      forall i | 0 <= i < |w| ensures w[i] != [] {
        if i > 0 { assert w[i] == CamelWords(s[q..])[i - 1]; }
      }
    }
  }

  /** Word boundaries of a name, as a set of positions. */
  function Boundaries(s: string): set<int> {
    set p | 0 < p < |s| && Boundary(s, p)
  }

  lemma BoundaryOfSuffix(s: string, q: nat, p: nat)
    requires q < |s| && 0 < p < |s| - q
    ensures Boundary(s[q..], p) == Boundary(s, q + p)
  {
  }

  /** The boundaries of a name whose first word ends at `q`: `q` itself, then those of the rest. */
  lemma BoundariesAfterFirstWord(s: string, q: nat)
    requires 0 < q < |s| && q == NextCut(s, 1)
    ensures Boundaries(s) == {q} + Shift(Boundaries(s[q..]), q)
  {
    var rest := s[q..];
    forall p | p in Boundaries(s) ensures p in {q} + Shift(Boundaries(rest), q) {
      if p != q {
        assert p > q;
        BoundaryOfSuffix(s, q, p - q);
        assert p - q in Boundaries(rest);
        assert p == (p - q) + q;
      }
    }
    forall p | p in Shift(Boundaries(rest), q) ensures p in Boundaries(s) {
      var p' :| p' in Boundaries(rest) && p == p' + q;
      BoundaryOfSuffix(s, q, p');
    }
  }

  /** The words are cut exactly at the boundaries of the regular expression, no more and no fewer. */
  lemma {:induction false} CamelWordsCutAtBoundaries(s: string)
    ensures Cuts(CamelWords(s)) == Boundaries(s)
    decreases |s|
  {
    if s == [] {
      assert Boundaries(s) == {};
    } else {
      var q := NextCut(s, 1);
      var rest := s[q..];
      var words := CamelWords(s);
      assert words == [s[..q]] + CamelWords(rest);
      if rest == [] {
        assert CamelWords(rest) == [];
        assert Boundaries(s) == {};
      } else {
        CamelWordsCutAtBoundaries(rest);
        assert CamelWords(rest) != [];
        assert words[1..] == CamelWords(rest);
        assert Cuts(words) == {q} + Shift(Cuts(CamelWords(rest)), q);
        BoundariesAfterFirstWord(s, q);
      }
    }
  }

  function RemoveSpaces(s: string): string {
    if s == [] then [] else (if s[0] == ' ' then [] else [s[0]]) + RemoveSpaces(s[1..])
  }

  lemma {:induction false} RemoveSpacesAppend(a: string, b: string)
    ensures RemoveSpaces(a + b) == RemoveSpaces(a) + RemoveSpaces(b)
  {
    if a != [] {
      assert (a + b)[1..] == a[1..] + b;
      RemoveSpacesAppend(a[1..], b);
    } else {
      assert a + b == b;
    }
  }

  lemma {:induction false} RemoveSpacesNoSpace(s: string)
    requires ' ' !in s
    ensures RemoveSpaces(s) == s
  {
    if s != [] {
      RemoveSpacesNoSpace(s[1..]);
      assert s == [s[0]] + s[1..];
    }
  }

  lemma {:induction false} JoinedWithoutSpaces(words: seq<string>)
    requires forall i :: 0 <= i < |words| ==> ' ' !in words[i]
    ensures RemoveSpaces(Join(" ", words)) == Flatten(words)
  {
    if |words| == 1 {
      RemoveSpacesNoSpace(words[0]);
      assert Flatten(words) == words[0] + Flatten(words[1..]);
    } else if |words| > 1 {
      JoinedWithoutSpaces(words[1..]);
      RemoveSpacesAppend(words[0] + " ", Join(" ", words[1..]));
      RemoveSpacesAppend(words[0], " ");
      RemoveSpacesNoSpace(words[0]);
    }
  }

  lemma {:induction false} LowerAllFlatten(words: seq<string>)
    ensures Flatten(LowerAll(words)) == LowerString(Flatten(words))
  {
    if words != [] {
      LowerAllFlatten(words[1..]);
      assert LowerAll(words)[1..] == LowerAll(words[1..]);
      LowerStringAppend(words[0], Flatten(words[1..]));
    }
  }

  /**
   * With its spaces taken out, the message is the lower-cased class name:
   * splitting only inserts single spaces between the words.
   */
  lemma MessageIsLoweredName(identifier: string)
    requires ' ' !in identifier
    ensures RemoveSpaces(HumanizeIdentifier(identifier)) == LowerString(identifier)
  {
    var words := CamelWords(identifier);
    CamelWordsCover(identifier);
    forall i | 0 <= i < |LowerAll(words)| ensures ' ' !in LowerAll(words)[i] {
      NoSpaceInWord(identifier, words, i);
    }
    JoinedWithoutSpaces(LowerAll(words));
    LowerAllFlatten(words);
  }

  /** A word of an identifier without spaces, lower-cased, has none either. */
  lemma NoSpaceInWord(identifier: string, words: seq<string>, i: nat)
    requires ' ' !in identifier && Flatten(words) == identifier && i < |words|
    ensures ' ' !in LowerString(words[i])
  {
    var w := words[i];
    forall j | 0 <= j < |w| ensures LowerString(w)[j] != ' ' {
      InFlatten(words, i, w[j]);
    }
  }

  /** The worked example: a run of capitals followed by a capitalised word. */
  lemma HttpErrorExample()
    ensures HumanizeIdentifier("HTTPError") == "http error"
  {
    var s := "HTTPError";
    assert !Boundary(s, 1) && !Boundary(s, 2) && !Boundary(s, 3) && Boundary(s, 4);
    assert NextCut(s, 1) == 4;
    var r := s[4..];
    assert r == "Error";
    assert !Boundary(r, 1) && !Boundary(r, 2) && !Boundary(r, 3) && !Boundary(r, 4);
    assert NextCut(r, 1) == 5;
    assert r[5..] == [];
    assert r[..5] == r;
    assert CamelWords(r) == [r[..5]] + CamelWords(r[5..]);
    assert CamelWords(r) == ["Error"];
    assert s[..4] == "HTTP";
    assert CamelWords(s) == [s[..4]] + CamelWords(s[4..]);
    assert CamelWords(s) == ["HTTP", "Error"];
    assert LowerString("HTTP") == "http";
    assert LowerString("Error") == "error";
    assert LowerAll(["HTTP", "Error"]) == ["http", "error"];
  }
}
