/**
 The "exclude paths" setting of the settings form
 (src/Form/AnonymousTimezoneSettingsForm.php): the textarea is split into
 lines on submit, PHP-empty lines are dropped, and the stored list is shown
 again joined with "\n".
 */
module ExcludePaths {
  import opened Php

  /**
   `preg_split("/\r\n|\n|\r/", $text)`: the pieces between line separators,
   where "\r\n" is one separator because it is the leftmost alternative.
   Empty pieces are kept, so "" gives one empty piece.
   */
  function SplitLines(text: string): (pieces: seq<string>)
    ensures |pieces| >= 1
    ensures forall i | 0 <= i < |pieces| :: IsSingleLine(pieces[i])
    ensures |pieces| <= |text| + 1
    decreases |text|
  {
    if text == [] then [""]
    else if text[0] == '\r' && |text| >= 2 && text[1] == '\n' then [""] + SplitLines(text[2..])
    else if text[0] == '\r' || text[0] == '\n' then [""] + SplitLines(text[1..])
    else
      var rest := SplitLines(text[1..]);
      [[text[0]] + rest[0]] + rest[1..]
  }

  /** `join($sep, $items)`. */
  function Join(items: seq<string>, sep: string): string {
    if items == [] then ""
    else if |items| == 1 then items[0]
    else items[0] + sep + Join(items[1..], sep)
  }

  /** One element of the stored array: `unset()` keeps the keys of the pieces that remain. */
  datatype KeyedPath = KeyedPath(key: nat, path: string)

  /**
   The foreach/unset loop over the pieces, which start at array key `offset`:
   every PHP-empty piece ("" or "0") is removed, every other piece kept under
   its original key, in order.
   */
  function KeepNonEmpty(pieces: seq<string>, offset: nat): (kept: seq<KeyedPath>)
    // Everything kept is a non-empty piece, under the key it had.
    ensures forall j | 0 <= j < |kept| ::
              offset <= kept[j].key < offset + |pieces|
              && kept[j].path == pieces[kept[j].key - offset]
              && !IsEmptyString(kept[j].path)
    // Input order is preserved.
    ensures forall j, k | 0 <= j < k < |kept| :: kept[j].key < kept[k].key
    decreases |pieces|
  {
    if pieces == [] then []
    else
      var rest := KeepNonEmpty(pieces[1..], offset + 1);
      if IsEmptyString(pieces[0]) then rest else [KeyedPath(offset, pieces[0])] + rest
  }

  /** Every non-empty piece is kept, so nothing but the PHP-empty pieces is lost. */
  lemma {:induction false} KeepNonEmptyComplete(pieces: seq<string>, offset: nat, i: nat)
    requires i < |pieces| && !IsEmptyString(pieces[i])
    ensures exists j | 0 <= j < |KeepNonEmpty(pieces, offset)| :: KeepNonEmpty(pieces, offset)[j].key == offset + i
    decreases |pieces|
  {
    var rest := KeepNonEmpty(pieces[1..], offset + 1);
    var kept := KeepNonEmpty(pieces, offset);
    if i == 0 {
      assert kept[0].key == offset + 0;
    } else {
      assert pieces[1..][i - 1] == pieces[i];
      KeepNonEmptyComplete(pieces[1..], offset + 1, i - 1);
      var j :| 0 <= j < |rest| && rest[j].key == offset + 1 + (i - 1);
      if IsEmptyString(pieces[0]) {
        assert kept[j].key == offset + i;
      } else {
        assert kept[j + 1].key == offset + i;
      }
    }
  }

  /** The exclude paths `submitForm()` stores for the submitted textarea content. */
  function ParseExcludePaths(text: string): (entries: seq<KeyedPath>)
    // Each entry is a non-empty, single-line piece of the text, under its piece number.
    ensures forall j | 0 <= j < |entries| ::
              entries[j].key < |SplitLines(text)|
              && entries[j].path == SplitLines(text)[entries[j].key]
              && !IsEmptyString(entries[j].path)
              && IsSingleLine(entries[j].path)
    // Entries keep the order of the lines.
    ensures forall j, k | 0 <= j < k < |entries| :: entries[j].key < entries[k].key
  {
    KeepNonEmpty(SplitLines(text), 0)
  }

  /** A line of the text is stored exactly when it is not PHP-empty. */
  lemma ParseKeepsLine(text: string, i: nat)
    requires i < |SplitLines(text)|
    ensures (exists j | 0 <= j < |ParseExcludePaths(text)| :: ParseExcludePaths(text)[j].key == i)
            <==> !IsEmptyString(SplitLines(text)[i])
  {
    var entries := ParseExcludePaths(text);
    if !IsEmptyString(SplitLines(text)[i]) {
      KeepNonEmptyComplete(SplitLines(text), 0, i);
    }
    if exists j | 0 <= j < |entries| :: entries[j].key == i {
      var j :| 0 <= j < |entries| && entries[j].key == i;
      assert entries[j].path == SplitLines(text)[i];
    }
  }

  /** The values of the stored array, in array order. */
  function Paths(entries: seq<KeyedPath>): (paths: seq<string>)
    ensures |paths| == |entries|
    ensures forall j | 0 <= j < |entries| :: paths[j] == entries[j].path
  {
    seq(|entries|, j requires 0 <= j < |entries| => entries[j].path)
  }

  /**
   The textarea's default value in `buildForm()`: a missing or empty stored
   list becomes the empty list, which is joined with "\n".
   */
  function RenderExcludePaths(stored: Option<seq<string>>): (text: string)
    ensures stored.None? || stored.value == [] ==> text == ""
  {
    var paths := if stored.None? || stored.value == [] then [] else stored.value;
    Join(paths, "\n")
  }

  /** The configuration record `submitForm()` saves. */
  datatype Settings = Settings(geodb: Option<string>, excludePaths: seq<KeyedPath>)

  /**
   `submitForm()`: `geodb` becomes the real path of the submitted value (NULL
   standing for `realpath()`'s FALSE) and the textarea is parsed into the
   exclude paths.
   */
  function SubmitForm(geodb: string, excludeText: string, realpath: string -> Option<string>): (saved: Settings)
    ensures saved.geodb == realpath(geodb)
    // Each saved path is a non-empty, single-line line of the text, under that line's number ...
    ensures forall j | 0 <= j < |saved.excludePaths| ::
              saved.excludePaths[j].key < |SplitLines(excludeText)|
              && saved.excludePaths[j].path == SplitLines(excludeText)[saved.excludePaths[j].key]
              && !IsEmptyString(saved.excludePaths[j].path) && IsSingleLine(saved.excludePaths[j].path)
    // ... in the order of the lines ...
    ensures forall j, k | 0 <= j < k < |saved.excludePaths| ::
              saved.excludePaths[j].key < saved.excludePaths[k].key
    // ... and a line is saved exactly when it is not PHP-empty.
    ensures forall i | 0 <= i < |SplitLines(excludeText)| ::
              (exists j | 0 <= j < |saved.excludePaths| :: saved.excludePaths[j].key == i)
              <==> !IsEmptyString(SplitLines(excludeText)[i])
  {
    var entries := ParseExcludePaths(excludeText);
    assert forall i | 0 <= i < |SplitLines(excludeText)| ::
             (exists j | 0 <= j < |entries| :: entries[j].key == i)
             <==> !IsEmptyString(SplitLines(excludeText)[i]) by {
      forall i | 0 <= i < |SplitLines(excludeText)|
        ensures (exists j | 0 <= j < |entries| :: entries[j].key == i)
                <==> !IsEmptyString(SplitLines(excludeText)[i])
      {
        ParseKeepsLine(excludeText, i);
      }
    }
    Settings(realpath(geodb), entries)
  }

  /** A single-line prefix is glued onto the first piece of what follows it. */
  lemma {:induction false} SplitSingleLinePrefix(line: string, rest: string)
    requires IsSingleLine(line)
    ensures SplitLines(line + rest)
            == [line + SplitLines(rest)[0]] + SplitLines(rest)[1..]
    decreases |line|
  {
    if line == [] {
      assert line + rest == rest;
      assert line + SplitLines(rest)[0] == SplitLines(rest)[0];
      assert SplitLines(rest) == [SplitLines(rest)[0]] + SplitLines(rest)[1..];
    } else {
      var tail := line[1..];
      assert IsSingleLine(tail) by {
        forall i | 0 <= i < |tail| ensures tail[i] != '\r' && tail[i] != '\n' {
          assert tail[i] == line[i + 1];
        }
      }
      SplitSingleLinePrefix(tail, rest);
      var text := line + rest;
      assert text[0] == line[0] && text[0] != '\r' && text[0] != '\n';
      assert text[1..] == tail + rest;
      var r := SplitLines(tail + rest);
      assert SplitLines(text) == [[line[0]] + r[0]] + r[1..];
      assert [line[0]] + (tail + SplitLines(rest)[0]) == line + SplitLines(rest)[0];
    }
  }

  /** "\r\n" after a line is a single separator. */
  lemma SplitAtCrLf(line: string, rest: string)
    requires IsSingleLine(line)
    ensures SplitLines(line + "\r\n" + rest) == [line] + SplitLines(rest)
  {
    var after := "\r\n" + rest;
    SplitSingleLinePrefix(line, after);
    assert line + "\r\n" + rest == line + after;
    assert after[2..] == rest;
    assert SplitLines(after) == [""] + SplitLines(rest);
    assert line + "" == line;
  }

  /** "\n" after a line is a separator. */
  lemma SplitAtLf(line: string, rest: string)
    requires IsSingleLine(line)
    ensures SplitLines(line + "\n" + rest) == [line] + SplitLines(rest)
  {
    var after := "\n" + rest;
    SplitSingleLinePrefix(line, after);
    assert line + "\n" + rest == line + after;
    assert after[1..] == rest;
    assert SplitLines(after) == [""] + SplitLines(rest);
    assert line + "" == line;
  }

  /** A "\r" that is not followed by "\n" is a separator on its own. */
  lemma SplitAtCr(line: string, rest: string)
    requires IsSingleLine(line) && (rest == [] || rest[0] != '\n')
    ensures SplitLines(line + "\r" + rest) == [line] + SplitLines(rest)
  {
    var after := "\r" + rest;
    SplitSingleLinePrefix(line, after);
    assert line + "\r" + rest == line + after;
    assert after[1..] == rest;
    assert !(|after| >= 2 && after[1] == '\n');
    assert SplitLines(after) == [""] + SplitLines(rest);
    assert line + "" == line;
  }

  /** Splitting a "\n"-joined list of single-line items gives the items back. */
  lemma {:induction false} SplitJoin(items: seq<string>)
    requires |items| >= 1
    requires forall i | 0 <= i < |items| :: IsSingleLine(items[i])
    ensures SplitLines(Join(items, "\n")) == items
    decreases |items|
  {
    if |items| == 1 {
      SplitSingleLinePrefix(items[0], "");
      assert items[0] + "" == items[0];
    } else {
      SplitJoin(items[1..]);
      SplitAtLf(items[0], Join(items[1..], "\n"));
      assert [items[0]] + items[1..] == items;
    }
  }

  /** Joining after a split gives the text back when it has no "\r" (which the split turns into "\n"). */
  lemma {:induction false} JoinSplit(text: string)
    requires forall i | 0 <= i < |text| :: text[i] != '\r'
    ensures Join(SplitLines(text), "\n") == text
    decreases |text|
  {
    if text != [] {
      JoinSplit(text[1..]);
      var rest := SplitLines(text[1..]);
      if text[0] == '\n' {
        assert SplitLines(text) == [""] + rest;
        assert ([""] + rest)[1..] == rest;
        assert [text[0]] + text[1..] == text;
      } else {
        var pieces := [[text[0]] + rest[0]] + rest[1..];
        assert SplitLines(text) == pieces;
        assert pieces[1..] == rest[1..];
        if |rest| == 1 {
          assert Join(rest, "\n") == rest[0];
        } else {
          assert Join(rest, "\n") == rest[0] + "\n" + Join(rest[1..], "\n");
        }
        assert [text[0]] + text[1..] == text;
      }
    }
  }

  /** When no piece is PHP-empty, every piece is kept, under consecutive keys. */
  lemma {:induction false} KeepNonEmptyKeepsAll(pieces: seq<string>, offset: nat)
    requires forall i | 0 <= i < |pieces| :: !IsEmptyString(pieces[i])
    ensures |KeepNonEmpty(pieces, offset)| == |pieces|
    ensures forall j | 0 <= j < |pieces| :: KeepNonEmpty(pieces, offset)[j].key == offset + j
    decreases |pieces|
  {
    if pieces != [] {
      var rest := KeepNonEmpty(pieces[1..], offset + 1);
      KeepNonEmptyKeepsAll(pieces[1..], offset + 1);
      var kept := KeepNonEmpty(pieces, offset);
      assert kept == [KeyedPath(offset, pieces[0])] + rest;
      forall j | 1 <= j < |pieces| ensures kept[j].key == offset + j {
        assert kept[j] == rest[j - 1];
      }
    }
  }

  /** Hence the stored paths are exactly the pieces. */
  lemma KeepNonEmptyPaths(pieces: seq<string>)
    requires forall i | 0 <= i < |pieces| :: !IsEmptyString(pieces[i])
    ensures Paths(KeepNonEmpty(pieces, 0)) == pieces
  {
    KeepNonEmptyKeepsAll(pieces, 0);
    var kept := KeepNonEmpty(pieces, 0);
    forall j | 0 <= j < |pieces| ensures Paths(kept)[j] == pieces[j] {
      assert kept[j].path == pieces[kept[j].key];
    }
  }

  /**
   Round trip of the form: a stored list of single-line, non-empty paths is
   shown as text and parsed back to the same paths, under keys 0, 1, 2, ...
   */
  lemma ParseRender(paths: seq<string>)
    requires forall i | 0 <= i < |paths| :: !IsEmptyString(paths[i]) && IsSingleLine(paths[i])
    ensures Paths(ParseExcludePaths(RenderExcludePaths(Some(paths)))) == paths
    ensures forall j | 0 <= j < |paths| :: ParseExcludePaths(RenderExcludePaths(Some(paths)))[j].key == j
  {
    if paths == [] {
      assert RenderExcludePaths(Some(paths)) == "";
      assert SplitLines("") == [""];
    } else {
      SplitJoin(paths);
      KeepNonEmptyKeepsAll(paths, 0);
      KeepNonEmptyPaths(paths);
    }
  }

  /** Mixed separators: "\r\n", "\r\r" and a "0" line; the stored keys keep the gaps. */
  lemma MixedSeparatorsExample()
    ensures ParseExcludePaths("a\r\n0\r\rb") == [KeyedPath(0, "a"), KeyedPath(3, "b")]
  {
    SplitAtCrLf("a", "0\r\rb");
    SplitAtCr("0", "\rb");
    SplitAtCr("", "b");
    assert "a\r\n0\r\rb" == "a" + "\r\n" + "0\r\rb";
    assert "0\r\rb" == "0" + "\r" + "\rb";
    assert "\rb" == "" + "\r" + "b";
    SplitSingleLinePrefix("b", "");
    assert "b" + "" == "b";
    assert SplitLines("a\r\n0\r\rb") == ["a", "0", "", "b"];
  }
}
