/** The script fix-duplicate-methods as a whole: locate every block of the
    duplicated method in the file's text, keep the first, cut out the rest,
    and write the file back only when something was cut. */
module FixDuplicateMethods {
  import opened Locator
  import opened Splice

  /** After the later blocks are cut, the scan of the new text still finds the
      kept block first, at the offsets it had in the original. */
  lemma KeptBlockFoundFirst(header: string, s: string)
    requires FindAll(header, s, 0) != []
    ensures var first := FindAll(header, s, 0)[0];
      var t := KeepFirst(s, FindAll(header, s, 0));
      FindAll(header, t, 0) != [] && FindAll(header, t, 0)[0] == first
  {
    var ms := FindAll(header, s, 0);
    var first := ms[0];
    var t := KeepFirst(s, ms);
    KeepFirstKeepsFirst(s, ms);
    forall k | 0 <= k < first.end ensures s[k] == t[k] {
      assert t[..first.end][k] == s[..first.end][k];
    }
    assert AgreeBelow(s, t, first.end);
    MatchDependsOnPrefix(header, s, t, first.end, first.start, first);
    forall p: nat, sp: Span | p < first.start ensures !IsMatch(header, t, p, sp) {
      NoHeaderBeforeFirst(header, s, p);
      if HeaderAt(header, t, p) {
        assert LiteralAt(s, p, header);
      }
    }
    FirstMatchAfterGap(header, t, 0, first.start, first);
  }

  /** The script's run on the file's text `original`. `found` is the number of
      blocks located, `written` whether the file is written back, `content`
      the text that is then written, `removed` the number of blocks cut. */
  method FixDuplicateMethods(original: string) returns (found: nat, written: bool, content: string, removed: nat)
    ensures found == |FindAll(Header, original, 0)|
    ensures written <==> found > 1
    ensures written ==> removed == found - 1 && content == KeepFirst(original, FindAll(Header, original, 0))
    ensures !written ==> removed == 0 && content == original
  {
    var matches := FindAll(Header, original, 0);
    found := |matches|;
    if found <= 1 {
      written, content, removed := false, original, 0;
    } else {
      content := RemoveLater(original, matches);
      written, removed := true, found - 1;
    }
  }
}
