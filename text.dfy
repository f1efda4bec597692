/**
  The revision-tracked text buffer of `src/text.rs`.

  A `Text` keeps a global revision counter, a sparse map from line index to
  the revision of the last structural change at that index (a `BTreeMap` in
  the source, a `map<nat, nat>` here) and the lines themselves.  The revision
  reported for a line is the value at the greatest map key at or below its
  index, so it is the newest structural change at or before that line.
*/
module TextBuffer {
  import opened Wrappers

  /** A line of text: its characters (`Vec<char>` in the source). */
  datatype Line = Line(content: seq<char>)

  /** A line together with the revision in effect at its index. */
  datatype LineView = LineView(line: Line, rev: nat)

  /** `Line::remove_char`: the character at `index` is removed (`Vec::remove` panics past the end). */
  function RemoveChar(l: Line, index: nat): (r: Line)
    requires index < |l.content|
    ensures |r.content| == |l.content| - 1
    ensures forall j :: 0 <= j < index ==> r.content[j] == l.content[j]
    ensures forall j :: index <= j < |r.content| ==> r.content[j] == l.content[j + 1]
  {
    Line(l.content[..index] + l.content[index + 1..])
  }

  /** `Line::extend_line`: `other` is appended; the source asserts it holds no newline. */
  function ExtendLine(l: Line, other: Line): (r: Line)
    requires '\n' !in other.content
    ensures |r.content| == |l.content| + |other.content|
    ensures r.content[..|l.content|] == l.content && r.content[|l.content|..] == other.content
  {
    Line(l.content + other.content)
  }

  /** Map values strictly increase with the key. */
  ghost predicate Increasing(revs: map<nat, nat>)
  {
    forall a, b :: a in revs && b in revs && a < b ==> revs[a] < revs[b]
  }

  /** Every recorded revision is at most `rev`. */
  ghost predicate AllAtMost(revs: map<nat, nat>, rev: nat)
  {
    forall k :: k in revs ==> revs[k] <= rev
  }

  /** `k` is the greatest key of `revs` that is at most `i`. */
  ghost predicate GreatestKeyAtMost(revs: map<nat, nat>, i: nat, k: nat)
  {
    k in revs && k <= i && forall j :: k < j <= i ==> j !in revs
  }

  /**
    The part of `revs` that `BTreeMap::split_off(&bound)` leaves behind:
    the entries whose key is below `bound`.
  */
  function Below(revs: map<nat, nat>, bound: nat): (r: map<nat, nat>)
    ensures forall k :: k in r <==> k in revs && k < bound
    ensures forall k :: k in r ==> r[k] == revs[k]
  {
    map k | k in revs && k < bound :: revs[k]
  }

  /**
    The revision that `Text::line` reports for index `i`: the value at the
    greatest key at or below `i` (`range(..=i).next_back()`), or the default
    revision 0 when there is no such key.
  */
  function RevAt(revs: map<nat, nat>, i: nat): (r: nat)
    ensures (forall k :: k in revs ==> i < k) ==> r == 0
    ensures (exists k :: k in revs && k <= i) ==>
              exists k :: GreatestKeyAtMost(revs, i, k) && r == revs[k]
    decreases i
  {
    if i in revs then revs[i]
    else if i == 0 then 0
    else RevAt(revs, i - 1)
  }

  /** Below a recorded key, the reported revision is no newer than the one at that key. */
  lemma RevAtBelowKey(revs: map<nat, nat>, i: nat, j: nat)
    requires Increasing(revs)
    requires i < j && j in revs
    ensures RevAt(revs, i) <= revs[j]
  {
    var r := RevAt(revs, i);
    if exists k :: k in revs && k <= i {
      assert exists k :: GreatestKeyAtMost(revs, i, k) && r == revs[k];
      var k :| GreatestKeyAtMost(revs, i, k) && r == revs[k];
      assert revs[k] <= revs[j];
    }
  }

  /** The reported revision never decreases with the index. */
  lemma {:induction false} RevAtMonotone(revs: map<nat, nat>, i: nat, j: nat)
    requires Increasing(revs)
    requires i <= j
    ensures RevAt(revs, i) <= RevAt(revs, j)
    decreases j
  {
    if i < j {
      if j in revs {
        RevAtBelowKey(revs, i, j);
      } else {
        RevAtMonotone(revs, i, j - 1);
      }
    }
  }

  /** The reported revision is one of the recorded ones, so it is at most `rev`. */
  lemma RevAtAtMost(revs: map<nat, nat>, rev: nat, i: nat)
    requires AllAtMost(revs, rev)
    ensures RevAt(revs, i) <= rev
  {
    var r := RevAt(revs, i);
    if exists k :: k in revs && k <= i {
      assert exists k :: GreatestKeyAtMost(revs, i, k) && r == revs[k];
      var k :| GreatestKeyAtMost(revs, i, k) && r == revs[k];
    }
  }

  /**
    Recording a change at `n` with a revision newer than every recorded one,
    and dropping the entries past `n`, keeps the map increasing.
  */
  lemma RecordKeepsIncreasing(revs: map<nat, nat>, rev: nat, n: nat)
    requires Increasing(revs) && AllAtMost(revs, rev)
    ensures Increasing(Below(revs[n := rev + 1], n + 1))
    ensures AllAtMost(Below(revs[n := rev + 1], n + 1), rev + 1)
  {
  }

  class Text {
    var rev: nat
    var revs: map<nat, nat>
    var lines: seq<Line>

    /** Revisions strictly increase with the index and none is newer than `rev`. */
    ghost predicate Valid()
      reads this
    {
      Increasing(revs) && AllAtMost(revs, rev)
    }

    /** `Text::new`: no lines, revision 0, no recorded changes. */
    constructor New()
      ensures Valid()
      ensures rev == 0 && revs == map[] && lines == []
    {
      rev, revs, lines := 0, map[], [];
    }

    /** `Text::from`: the given lines in order, revision 0, no recorded changes. */
    constructor From(ls: seq<string>)
      ensures Valid()
      ensures rev == 0 && revs == map[]
      ensures |lines| == |ls| && forall i :: 0 <= i < |ls| ==> lines[i] == Line(ls[i])
      ensures forall i :: 0 <= i < |ls| ==> LineAt(i) == Some(LineView(Line(ls[i]), 0))
    {
      rev, revs, lines := 0, map[], [];
      new;
      for i := 0 to |ls|
        invariant rev == 0 && revs == map[]
        invariant |lines| == i && forall j :: 0 <= j < i ==> lines[j] == Line(ls[j])
      {
        lines := lines + [Line(ls[i])];
      }
    }

    /** `Rev::bump`: the counter grows by one and the new value is returned. */
    method Bump() returns (r: nat)
      modifies this`rev
      ensures rev == old(rev) + 1 && r == rev
    {
      rev := rev + 1;
      r := rev;
    }

    /** `Text::line`: the line at `n` with the revision in effect there, or None past the end. */
    function LineAt(n: nat): (r: Option<LineView>)
      reads this
      ensures r.None? <==> n >= |lines|
      ensures r.Some? ==> r.value.line == lines[n] && r.value.rev == RevAt(revs, n)
      ensures r.Some? && Valid() ==> r.value.rev <= rev
    {
      if n < |lines| then
        assert Valid() ==> RevAt(revs, n) <= rev by {
          if Valid() { RevAtAtMost(revs, rev, n); }
        }
        Some(LineView(lines[n], RevAt(revs, n)))
      else None
    }

    /** `Text::line_count`. */
    function LineCount(): (r: nat)
      reads this
      ensures r == |lines|
      ensures forall i: nat :: LineAt(i).None? <==> i >= r
    {
      |lines|
    }

    /** `Text::iter_lines`: every line, in order, as `LineAt` reports it. */
    function IterLines(): (r: seq<LineView>)
      reads this
      ensures |r| == |lines|
      ensures forall i :: 0 <= i < |r| ==> LineAt(i) == Some(r[i])
      ensures Valid() ==> forall i, j :: 0 <= i <= j < |r| ==> r[i].rev <= r[j].rev
    {
      var ls, rs := lines, revs;
      var views := seq(|ls|, i requires 0 <= i < |ls| => LineView(ls[i], RevAt(rs, i)));
      assert Valid() ==> forall i, j :: 0 <= i <= j < |views| ==> views[i].rev <= views[j].rev by {
        if Valid() {
          forall i, j | 0 <= i <= j < |views| ensures views[i].rev <= views[j].rev {
            RevAtMonotone(rs, i, j);
          }
        }
      }
      views
    }

    /**
      `Text::line_changed`: bump the revision, record it at `n` and drop every
      entry at a larger index.
    */
    method LineChanged(n: nat)
      requires Valid()
      modifies this`rev, this`revs
      ensures Valid()
      ensures rev == old(rev) + 1
      ensures n in revs && revs[n] == rev
      ensures forall k :: k in revs <==> k == n || (k in old(revs) && k < n)
      ensures forall k :: k in old(revs) && k < n ==> revs[k] == old(revs)[k]
    {
      RecordKeepsIncreasing(revs, rev, n);
      var r := Bump();
      revs := revs[n := r];
      revs := Below(revs, n + 1);
    }

    /**
      `Text::line_mut`: the change is recorded at `n` even when `n` is past the
      end; the line, if it exists, is then handed to the caller, whose use of
      the mutable borrow is the function `edit`.
    */
    method LineMut(n: nat, edit: Line -> Line) returns (found: bool)
      requires Valid()
      modifies this
      ensures Valid()
      ensures rev == old(rev) + 1
      ensures n in revs && revs[n] == rev
      ensures forall k :: k in revs <==> k == n || (k in old(revs) && k < n)
      ensures forall k :: k in old(revs) && k < n ==> revs[k] == old(revs)[k]
      ensures found <==> n < |old(lines)|
      ensures lines == if found then old(lines)[n := edit(old(lines)[n])] else old(lines)
    {
      LineChanged(n);
      found := n < |lines|;
      if found {
        lines := lines[n := edit(lines[n])];
      }
    }

    /**
      `Text::remove_line`: past the end nothing changes, not even the revision;
      otherwise the change is recorded and the line is removed and returned.
    */
    method RemoveLine(n: nat) returns (r: Option<Line>)
      requires Valid()
      modifies this
      ensures Valid()
      ensures r.None? <==> n >= |old(lines)|
      ensures r.None? ==> rev == old(rev) && revs == old(revs) && lines == old(lines)
      ensures r.Some? ==> && r.value == old(lines)[n]
                          && lines == old(lines)[..n] + old(lines)[n + 1..]
                          && rev == old(rev) + 1
                          && n in revs && revs[n] == rev
                          && (forall k :: k in revs <==> k == n || (k in old(revs) && k < n))
                          && (forall k :: k in old(revs) && k < n ==> revs[k] == old(revs)[k])
    {
      if |lines| <= n {
        return None;
      }
      LineChanged(n);
      r := Some(lines[n]);
      lines := lines[..n] + lines[n + 1..];
    }

    /**
      `Text::insert_line`: the change is recorded and `l` becomes line `n`.
      `Vec::insert` panics past the end, so `n` is at most the line count.
    */
    method InsertLine(n: nat, l: Line)
      requires Valid()
      requires n <= |lines|
      modifies this
      ensures Valid()
      ensures lines == old(lines)[..n] + [l] + old(lines)[n..]
      ensures |lines| == |old(lines)| + 1 && lines[n] == l
      ensures rev == old(rev) + 1
      ensures n in revs && revs[n] == rev
      ensures forall k :: k in revs <==> k == n || (k in old(revs) && k < n)
      ensures forall k :: k in old(revs) && k < n ==> revs[k] == old(revs)[k]
    {
      LineChanged(n);
      lines := lines[..n] + [l] + lines[n..];
    }

    /** `Text::insert_line_from_chars`: as `InsertLine`, with the line built from `chars`. */
    method InsertLineFromChars(n: nat, chars: seq<char>)
      requires Valid()
      requires n <= |lines|
      modifies this
      ensures Valid()
      ensures lines == old(lines)[..n] + [Line(chars)] + old(lines)[n..]
      ensures rev == old(rev) + 1
      ensures n in revs && revs[n] == rev
      ensures forall k :: k in revs <==> k == n || (k in old(revs) && k < n)
      ensures forall k :: k in old(revs) && k < n ==> revs[k] == old(revs)[k]
    {
      LineChanged(n);
      lines := lines[..n] + [Line.Line(chars)] + lines[n..];
    }
  }
}
