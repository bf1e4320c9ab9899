/**
 * `extractContentAfterTags`: an unanchored search for the regular expression
 * /---\n#[^\n]*\n\n([\s\S]*)/, written out as the leftmost scan the regular
 * expression engine performs, followed by `trim` of the captured remainder.
 */
module Header {
  import opened Wrappers
  import opened StringTrim

  /** The literal that opens a tag header: a `---` line and the `#` of the heading line. */
  const Fence: string := "---\n#"

  /** `Fence` occurs at position `i`. */
  predicate FenceAt(text: string, i: nat)
    ensures FenceAt(text, i) ==> i + |Fence| <= |text| && text[i..i + |Fence|] == Fence
  {
    && i + 5 <= |text|
    && text[i] == '-' && text[i + 1] == '-' && text[i + 2] == '-'
    && text[i + 3] == '\n' && text[i + 4] == '#'
  }

  /**
   * Declarative reading of the pattern: the header starts at `i` and its
   * heading line ends with the line feed at `j`, which is followed by a
   * second line feed (the blank line). The capture group is `text[j + 2..]`.
   */
  predicate HeaderAt(text: string, i: nat, j: nat)
  {
    && i + |Fence| <= j
    && j + 2 <= |text|
    && FenceAt(text, i)
    && (forall m :: i + |Fence| <= m < j ==> text[m] != '\n')
    && text[j] == '\n'
    && text[j + 1] == '\n'
  }

  /** The first line feed at or after `k`, or `|text|` when there is none. */
  function LineEnd(text: string, k: nat): (j: nat)
    requires k <= |text|
    ensures k <= j <= |text|
    ensures j < |text| ==> text[j] == '\n'
    ensures forall m :: k <= m < j ==> text[m] != '\n'
    decreases |text| - k
  {
    if k == |text| || text[k] == '\n' then k else LineEnd(text, k + 1)
  }

  /**
   * One attempt of the engine at position `i`: `[^\n]*` runs to the first line
   * feed (giving characters back cannot produce a line feed), and the pattern
   * then needs that line feed and one more.
   */
  function MatchAt(text: string, i: nat): (r: Option<nat>)
    ensures r.Some? ==> HeaderAt(text, i, r.value)
    ensures forall j: nat :: HeaderAt(text, i, j) ==> r == Some(j)
  {
    if FenceAt(text, i) then
      var j := LineEnd(text, i + |Fence|);
      if j + 2 <= |text| && text[j + 1] == '\n' then Some(j) else None
    else
      None
  }

  /** Tries every start position from `from` on, as the unanchored search does. */
  function FindHeader(text: string, from: nat): (r: Option<(nat, nat)>)
    requires from <= |text|
    ensures r.Some? ==> from <= r.value.0 && HeaderAt(text, r.value.0, r.value.1)
    ensures forall i: nat, j: nat :: from <= i && HeaderAt(text, i, j) ==> r.Some? && r.value.0 <= i
    decreases |text| - from
  {
    match MatchAt(text, from)
    case Some(j) => Some((from, j))
    case None => if from == |text| then None else FindHeader(text, from + 1)
  }

  /** True when the pattern occurs anywhere in `text`. */
  ghost predicate HasHeader(text: string)
  {
    exists i: nat, j: nat :: HeaderAt(text, i, j)
  }

  /**
   * `content.match(regex)[1]`: the capture group `([\s\S]*)` of the leftmost
   * match, which is everything after the blank line; absent when nothing matches.
   */
  function Capture(text: string): (r: Option<string>)
    ensures r.Some? <==> HasHeader(text)
    ensures r.Some? ==> exists i: nat, j: nat :: HeaderAt(text, i, j) && r.value == text[j + 2..]
  {
    match FindHeader(text, 0)
    case None => None
    case Some((i, j)) => Some(text[j + 2..])
  }

  /** The capture group of the leftmost match is the text after its blank line. */
  lemma {:induction false} CaptureLeftmost(text: string, i: nat, j: nat)
    requires HeaderAt(text, i, j)
    requires forall i': nat, j': nat :: i' < i ==> !HeaderAt(text, i', j')
    ensures Capture(text) == Some(text[j + 2..])
  {
    var r := FindHeader(text, 0);
    assert r.Some? && r.value.0 <= i;
    var j' := r.value.1;
    assert r.value.0 == i;
    assert j' == j by {
      assert MatchAt(text, i) == Some(j) == Some(j');
    }
  }

  /** `extractContentAfterTags(content)`. */
  function ExtractContentAfterTags(text: string): (r: string)
    ensures |r| <= |text|
    ensures !HasHeader(text) ==> r == text
    ensures HasHeader(text) ==> Trimmed(r)
  {
    match Capture(text)
    case None => text
    case Some(rest) => Trim(rest)
  }

  /**
   * When the leftmost header starts at `i` and its heading line ends at `j`,
   * the result is the text after the blank line, trimmed: everything before the
   * header, wherever it sits, and the header itself are dropped, and by
   * `TrimSplits` only the whitespace at the ends of the remainder goes with them.
   */
  lemma {:induction false} ExtractLeftmost(text: string, i: nat, j: nat)
    requires HeaderAt(text, i, j)
    requires forall i': nat, j': nat :: i' < i ==> !HeaderAt(text, i', j')
    ensures ExtractContentAfterTags(text) == Trim(text[j + 2..])
  {
    CaptureLeftmost(text, i, j);
  }

  /** Without a header the text comes back exactly as it was, untrimmed. */
  lemma {:induction false} ExtractNoHeader(text: string)
    requires forall i: nat, j: nat :: !HeaderAt(text, i, j)
    ensures ExtractContentAfterTags(text) == text
  {
  }

  /** A header with its body. */
  lemma {:induction false} ExampleWithHeader()
    ensures ExtractContentAfterTags("---\n#tag\n\nHello world") == "Hello world"
  {
    var text := "---\n#tag\n\nHello world";
    var body := "Hello world";
    assert HeaderAt(text, 0, 8) by {
      assert text[5] == 't' && text[6] == 'a' && text[7] == 'g';
    }
    assert text[10..] == body;
    assert Trim(body) == body by {
      assert body[0] == 'H' && body[|body| - 1] == 'd';
      assert [] + body + [] == body;
      TrimUnique([], body, []);
    }
    ExtractLeftmost(text, 0, 8);
  }

  /**
   * A fence whose heading line is not followed by a blank line does not stop
   * the search: the engine moves on and matches the later header.
   */
  lemma {:induction false} ExampleLaterHeader()
    ensures ExtractContentAfterTags("---\n#a\nb\n---\n#c\n\nbody") == "body"
  {
    var text := "---\n#a\nb\n---\n#c\n\nbody";
    var body := "body";
    assert HeaderAt(text, 9, 15) by {
      assert text[9] == '-' && text[13] == '#' && text[14] == 'c';
    }
    forall i': nat, j': nat | i' < 9 ensures !HeaderAt(text, i', j') {
      if i' == 0 {
        assert text[6] == '\n' && text[7] == 'b';
      } else {
        assert !FenceAt(text, i') by {
          assert text[1] == '-' && text[2] == '-' && text[3] == '\n' && text[4] == '#';
          assert text[5] == 'a' && text[6] == '\n' && text[7] == 'b' && text[8] == '\n';
        }
      }
    }
    assert text[17..] == body;
    assert Trim(body) == body by {
      assert body[0] == 'b' && body[|body| - 1] == 'y';
      assert [] + body + [] == body;
      TrimUnique([], body, []);
    }
    ExtractLeftmost(text, 9, 15);
  }

  /** No header at all. */
  lemma {:induction false} ExampleWithoutHeader()
    ensures ExtractContentAfterTags("No header here") == "No header here"
  {
    var text := "No header here";
    forall i: nat, j: nat ensures !HeaderAt(text, i, j) {
      if i + |Fence| <= |text| {
        assert text[i] != '-';
        assert text[i..i + |Fence|][0] != Fence[0];
      }
    }
    ExtractNoHeader(text);
  }
}
