/** The `.env` update of the Vellum setup script (setup_vellum.py,
    `setup_vellum`): put `VELLUM_API_KEY=<key>` into the file's text, either
    by rewriting the first line that already sets it or by appending a new
    line. The prompt and the file reads and writes around it are left out;
    the file's text and the typed key arrive as parameters. */
module EnvUpsert {
  import opened Wrappers
  import opened Text

  /** The name whose presence anywhere in the text selects the update branch. */
  const Marker: string := "VELLUM_API_KEY"
  /** The start of a line that sets the key. */
  const Prefix: string := "VELLUM_API_KEY="

  /** `f"VELLUM_API_KEY={key}"`: the prefix that sets the key, then the key;
      it mentions the marker. */
  function KeyLine(key: string): (line: string)
    ensures StartsWith(line, Prefix) && line[|Prefix|..] == key
    ensures StartsWith(line, Marker)
  {
    assert (Prefix + key)[..|Marker|] == Marker;
    Prefix + key
  }

  /** The index of the first line that starts with `VELLUM_API_KEY=`. */
  function FirstKeyLine(lines: seq<string>): (r: Option<nat>)
    ensures r.Some? ==> r.value < |lines| && StartsWith(lines[r.value], Prefix)
    ensures r.Some? ==> forall j :: 0 <= j < r.value ==> !StartsWith(lines[j], Prefix)
    ensures r.None? ==> forall j :: 0 <= j < |lines| ==> !StartsWith(lines[j], Prefix)
    decreases |lines|
  {
    if lines == [] then None
    else if StartsWith(lines[0], Prefix) then Some(0)
    else
      match FirstKeyLine(lines[1..])
      case None => None
      case Some(i) => Some(i + 1)
  }

  /** The text the script writes back: the update branch when the marker
      occurs anywhere in the text, the append branch otherwise. Either way
      the text written mentions the marker. */
  function Upserted(content: string, key: string): (r: string)
    ensures Contains(r, Marker)
  {
    if Contains(content, Marker) then Updated(content, key) else Appended(content, key)
  }

  /** Update branch: the first line that sets the key is replaced by the new
      key line; without such a line the lines are joined back unchanged. */
  function Updated(content: string, key: string): (r: string)
    ensures Contains(content, Marker) ==> Contains(r, Marker)
  {
    var lines := Split(content);
    match FirstKeyLine(lines)
    case None =>
      JoinSplit(content);
      Join(lines)
    case Some(i) =>
      var updated := lines[i := KeyLine(key)];
      JoinContains(updated, i, Marker);
      Join(updated)
  }

  /** Append branch: close an unterminated last line, then add the key line
      and a newline. */
  function Appended(content: string, key: string): (r: string)
    ensures StartsWith(r, content)
    ensures Contains(r, Marker)
  {
    var separator := if content != [] && content[|content| - 1] != '\n' then "\n" else "";
    var head := content + separator;
    var r := head + KeyLine(key) + "\n";
    assert r[..|content|] == content;
    assert r[|head|..][..|Marker|] == KeyLine(key)[..|Marker|];
    assert OccursAt(r, Marker, |head|);
    r
  }

  /** The `for i, line in enumerate(lines)` loop: overwrite the first line
      that sets the key, then stop. */
  method RewriteKeyLine(lines: seq<string>, key: string) returns (rewritten: seq<string>)
    ensures FirstKeyLine(lines).None? ==> rewritten == lines
    ensures FirstKeyLine(lines).Some? ==> rewritten == lines[FirstKeyLine(lines).value := KeyLine(key)]
  {
    rewritten := lines;
    var i := 0;
    while i < |lines|
      invariant 0 <= i <= |lines| && rewritten == lines
      invariant forall j :: 0 <= j < i ==> !StartsWith(lines[j], Prefix)
    {
      if StartsWith(lines[i], Prefix) {
        FirstKeyLineIs(lines, i);
        rewritten := lines[i := KeyLine(key)];
        return;
      }
      i := i + 1;
    }
  }

  /** The script's update: split into lines, overwrite the first key line
      and stop, join again; or append a key line, first closing an
      unterminated last line. */
  method Upsert(existingContent: string, key: string) returns (envContent: string)
    ensures envContent == Upserted(existingContent, key)
  {
    envContent := existingContent;
    if Contains(envContent, Marker) {
      var lines := RewriteKeyLine(Split(envContent), key);
      envContent := Join(lines);
      assert envContent == Updated(existingContent, key);
      assert envContent == Upserted(existingContent, key);
    } else {
      if envContent != [] && envContent[|envContent| - 1] != '\n' {
        envContent := envContent + "\n";
      }
      envContent := envContent + KeyLine(key) + "\n";
      assert envContent == Appended(existingContent, key);
      assert envContent == Upserted(existingContent, key);
    }
  }

  /** The script's content logic: an entered key that is blank after
      stripping is refused and nothing is written; otherwise the stripped
      key is upserted into the existing file's text (empty when there is no
      file). */
  method SetupVellum(existingFile: Option<string>, entered: string) returns (ok: bool, written: Option<string>)
    ensures ok <==> !AllSpace(entered)
    ensures !ok ==> written == None
    ensures ok ==> written == Some(Upserted(if existingFile.Some? then existingFile.value else "", Strip(entered)))
  {
    var existingContent := if existingFile.Some? then existingFile.value else "";
    var vellumApiKey := Strip(entered);
    if vellumApiKey == [] {
      return false, None;
    }
    var envContent := Upsert(existingContent, vellumApiKey);
    return true, Some(envContent);
  }

  /** `FirstKeyLine` is pinned down by its contract. */
  lemma FirstKeyLineIs(lines: seq<string>, n: nat)
    requires n < |lines| && StartsWith(lines[n], Prefix)
    requires forall j :: 0 <= j < n ==> !StartsWith(lines[j], Prefix)
    ensures FirstKeyLine(lines) == Some(n)
  {
  }

  /** A text in which the marker does not occur has no line that sets the
      key. */
  lemma NoMarkerNoKeyLine(s: string)
    requires !Contains(s, Marker)
    ensures forall j :: 0 <= j < |Split(s)| ==> !StartsWith(Split(s)[j], Prefix)
  {
    forall j | 0 <= j < |Split(s)| ensures !StartsWith(Split(s)[j], Prefix) {
      if StartsWith(Split(s)[j], Prefix) {
        KeyLineMeansMarker(s, j);
      }
    }
  }

  /** The key line is one line when the key is. */
  lemma KeyLineFacts(key: string)
    ensures NoNewline(key) ==> NoNewline(KeyLine(key))
  {
    var kl := KeyLine(key);
    if NoNewline(key) {
      forall k | 0 <= k < |kl| ensures kl[k] != '\n' {
        if k >= |Prefix| { assert kl[k] == kl[|Prefix|..][k - |Prefix|]; }
      }
    }
  }

  /** The append branch's text: the old text, a newline if its last line
      was unterminated, the key line and a final newline. */
  lemma AppendText(content: string, key: string) returns (head: string)
    requires !Contains(content, Marker)
    ensures head == content || (head == content + "\n" && content != [] && content[|content| - 1] != '\n')
    ensures head == [] || head[|head| - 1] == '\n'
    ensures Upserted(content, key) == head + (KeyLine(key) + "\n")
  {
    head := if content != [] && content[|content| - 1] != '\n' then content + "\n" else content;
    var kl := KeyLine(key);
    calc {
      Upserted(content, key);
      Appended(content, key);
      head + kl + "\n";
    == { StringAssoc(head, kl, "\n"); }
      head + (kl + "\n");
    }
  }

  lemma StringAssoc(a: string, b: string, c: string)
    ensures a + b + c == a + (b + c)
  {
  }

  /** Append branch: the old text is kept as a prefix and the key line with
      its newline ends the text. */
  lemma AppendBranch(content: string, key: string)
    requires !Contains(content, Marker)
    ensures var r := Upserted(content, key);
      StartsWith(r, content) && |r| <= |content| + |KeyLine(key)| + 2 &&
      r[|r| - |KeyLine(key)| - 1..] == KeyLine(key) + "\n"
  {
    var head := AppendText(content, key);
    var r := head + (KeyLine(key) + "\n");
    assert r[..|content|] == content;
    assert r[|r| - |KeyLine(key)| - 1..] == KeyLine(key) + "\n";
  }

  /** Append branch, line by line: the last two lines are the key line and
      an empty one, and the key line is the first line that sets the key
      (the old text had none). */
  lemma AppendBranchLines(content: string, key: string)
    requires !Contains(content, Marker)
    requires NoNewline(key)
    ensures var lines := Split(Upserted(content, key));
      |lines| >= 2 && lines[|lines| - 2] == KeyLine(key) && lines[|lines| - 1] == "" &&
      FirstKeyLine(lines) == Some(|lines| - 2)
  {
    var before := AppendedSplit(content, key);
    var lines := Split(Upserted(content, key));
    KeyLineFacts(key);
    forall j | 0 <= j < |before| ensures !StartsWith(lines[j], Prefix) {
      assert lines[j] == before[j];
    }
    FirstKeyLineIs(lines, |before|);
  }

  /** The lines of the append branch's text: lines without the key, then
      the key line and an empty line. */
  lemma AppendedSplit(content: string, key: string) returns (before: seq<string>)
    requires !Contains(content, Marker)
    requires NoNewline(key)
    ensures Split(Upserted(content, key)) == before + [KeyLine(key), ""]
    ensures forall j :: 0 <= j < |before| ==> !StartsWith(before[j], Prefix)
  {
    var head := AppendText(content, key);
    var kl := KeyLine(key);
    KeyLineFacts(key);
    var tail := KeyLineSplit(kl);
    assert Upserted(content, key) == head + tail;
    if head == [] {
      before := [];
      assert head + tail == tail;
    } else {
      before := ClosedHeadSplit(content, head, tail);
    }
  }

  /** The key line with its newline splits into the key line and an empty
      line. */
  lemma KeyLineSplit(kl: string) returns (tail: string)
    requires NoNewline(kl)
    ensures tail == kl + "\n" && Split(tail) == [kl, ""]
  {
    tail := kl + "\n";
    assert tail == kl + "\n" + "";
    SplitFirst(kl, "");
    SplitWhole("");
  }

  /** Splitting a marker-free text closed by a newline (`head`), followed
      by more text, gives lines none of which sets the key, and then the
      rest's lines. */
  lemma ClosedHeadSplit(content: string, head: string, tail: string) returns (before: seq<string>)
    requires !Contains(content, Marker)
    requires head == content || head == content + "\n"
    requires head != [] && head[|head| - 1] == '\n'
    ensures Split(head + tail) == before + Split(tail)
    ensures forall j :: 0 <= j < |before| ==> !StartsWith(before[j], Prefix)
  {
    var a := head[..|head| - 1];
    assert head + tail == a + "\n" + tail;
    SplitConcat(a, tail);
    assert a == content[..|a|];
    if Contains(a, Marker) {
      ContainsInPrefix(content, |a|, Marker);
    }
    NoMarkerNoKeyLine(a);
    before := Split(a);
  }

  /** Line `j` of the split starts the text at some offset. */
  lemma {:induction false} LineOffset(s: string, j: nat) returns (o: nat)
    requires j < |Split(s)|
    ensures o <= |s| && StartsWith(s[o..], Split(s)[j])
    decreases |s|
  {
    if j == 0 {
      o := 0;
      assert s[0..] == s;
      assert Split(s)[0] == s[..NewlineAt(s)];
    } else {
      assert NewlineAt(s) < |s|;
      var p, rest := FirstLine(s);
      ConsIndex(p, Split(rest), j);
      var o' := LineOffset(rest, j - 1);
      o := |p| + 1 + o';
      DropPast(p, rest, o');
    }
  }

  lemma ConsIndex(p: string, lines: seq<string>, j: nat)
    requires 0 < j <= |lines|
    ensures ([p] + lines)[j] == lines[j - 1]
  {
  }

  /** A text with a line that sets the key contains the marker. */
  lemma KeyLineMeansMarker(s: string, j: nat)
    requires j < |Split(s)| && StartsWith(Split(s)[j], Prefix)
    ensures Contains(s, Marker)
  {
    var o := LineOffset(s, j);
    assert StartsWith(Prefix, Marker);
    StartsWithTrans(Split(s)[j], Prefix, Marker);
    StartsWithTrans(s[o..], Split(s)[j], Marker);
    assert OccursAt(s, Marker, o);
  }

  /** Update branch with no line that sets the key (the marker only occurs
      inside some other line): the text comes back unchanged. */
  lemma UpdateWithoutKeyLine(content: string, key: string)
    requires Contains(content, Marker) && FirstKeyLine(Split(content)).None?
    ensures Upserted(content, key) == content
  {
    JoinSplit(content);
  }

  /** Update branch: the line count is kept, the first line that sets the
      key becomes the new key line and every other line is kept. */
  lemma UpdateBranch(content: string, key: string)
    requires Contains(content, Marker) && NoNewline(key)
    ensures |Split(Upserted(content, key))| == |Split(content)|
    ensures FirstKeyLine(Split(content)).None? ==> Upserted(content, key) == content
    ensures FirstKeyLine(Split(content)).Some? ==>
      var i := FirstKeyLine(Split(content)).value;
      Split(Upserted(content, key))[i] == KeyLine(key) &&
      forall j :: 0 <= j < |Split(content)| && j != i ==> Split(Upserted(content, key))[j] == Split(content)[j]
  {
    var lines := Split(content);
    match FirstKeyLine(lines)
    case None =>
      JoinSplit(content);
    case Some(i) =>
      KeyLineFacts(key);
      SplitLines(content);
      SplitJoin(lines[i := KeyLine(key)]);
  }

  /** A text whose first line that sets the key already sets it to `key` is
      written back unchanged. */
  lemma AlreadySet(r: string, key: string, n: nat)
    requires FirstKeyLine(Split(r)) == Some(n) && Split(r)[n] == KeyLine(key)
    ensures Upserted(r, key) == r
  {
    var lines := Split(r);
    KeyLineMeansMarker(r, n);
    assert lines[n := KeyLine(key)] == lines;
    JoinSplit(r);
  }

  /** Running the update twice with the same key writes the same text as
      running it once. */
  lemma Idempotent(content: string, key: string)
    requires NoNewline(key)
    ensures Upserted(Upserted(content, key), key) == Upserted(content, key)
  {
    var r := Upserted(content, key);
    if Contains(content, Marker) {
      var lines := Split(content);
      match FirstKeyLine(lines)
      case None =>
        JoinSplit(content);
      case Some(i) =>
        var updated := lines[i := KeyLine(key)];
        KeyLineFacts(key);
        SplitLines(content);
        SplitJoin(updated);
        FirstKeyLineIs(updated, i);
        AlreadySet(r, key, i);
    } else {
      AppendBranchLines(content, key);
      AlreadySet(r, key, |Split(r)| - 2);
    }
  }
}
