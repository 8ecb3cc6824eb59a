/**
 * Picking the publication date out of a question page's bullet spans, shared
 * word for word by the v2 and keyword crawlers.
 */
module DateField {
  import opened Wrappers
  import opened Text

  const BUMPED_PREFIX := "끌올작성일"
  const WRITTEN_PREFIX := "작성일"

  /**
   * The date span: the third of four spans or the second of three; any other
   * count (none included) is an error.
   */
  function SelectDateSpan(spans: seq<string>): (r: Option<string>)
    ensures r.Some? <==> |spans| == 3 || |spans| == 4
    ensures |spans| == 4 ==> r == Some(spans[2])
    ensures |spans| == 3 ==> r == Some(spans[1])
  {
    if |spans| == 4 then Some(spans[2])
    else if |spans| == 3 then Some(spans[1])
    else None
  }

  /**
   * The "bumped on" and "written on" labels are dropped when the text starts
   * with them; `replace` drops every occurrence, then the text is stripped.
   */
  function StripDatePrefixes(raw: string): string
  {
    var s := if StartsWith(raw, BUMPED_PREFIX) then Strip(Replace(raw, BUMPED_PREFIX, "")) else raw;
    if StartsWith(s, WRITTEN_PREFIX) then Strip(Replace(s, WRITTEN_PREFIX, "")) else s
  }

  /** A marker at the front, and every other copy of it, is removed along with the blanks after it. */
  lemma DropLabel(marker: string, sp: string, t: string)
    requires marker != [] && !IsSpace(marker[0]) && marker[0] !in t
    requires forall i :: 0 <= i < |sp| ==> IsSpace(sp[i])
    requires Trimmed(t)
    ensures StartsWith(marker + sp + t, marker)
    ensures Strip(Replace(marker + sp + t, marker, "")) == t
  {
    var rest := sp + t;
    var s := marker + rest;
    assert s == marker + sp + t;
    assert s[..|marker|] == marker;
    assert s[|marker|..] == rest;
    assert marker[0] !in rest by {
      forall i | 0 <= i < |rest| ensures rest[i] != marker[0] {
        if i < |sp| { assert IsSpace(sp[i]); } else { assert rest[i] == t[i - |sp|]; }
      }
    }
    ReplaceAbsent(rest, marker, "");
    assert Replace(s, marker, "") == rest;
    StripLeadingSpace(sp, t);
  }

  /** Text without the label characters starts with neither label. */
  lemma NoLabelStart(t: string)
    requires '끌' !in t && '작' !in t
    ensures !StartsWith(t, BUMPED_PREFIX) && !StartsWith(t, WRITTEN_PREFIX)
  {
    if |t| >= 3 {
      assert t[0] != '작' && t[0] != '끌';
      assert t[..3][0] == t[0];
    }
  }

  /** Text that starts with neither label is left as it is. */
  lemma UnlabelledKept(t: string)
    requires '끌' !in t && '작' !in t
    ensures StripDatePrefixes(t) == t
  {
    NoLabelStart(t);
  }

  /** After "작성일" and blanks, the date text is what remains. */
  lemma WrittenLabelRemoved(sp: string, t: string)
    requires forall i :: 0 <= i < |sp| ==> IsSpace(sp[i])
    requires Trimmed(t) && '작' !in t
    ensures StripDatePrefixes(WRITTEN_PREFIX + sp + t) == t
  {
    var w := WRITTEN_PREFIX + sp + t;
    DropLabel(WRITTEN_PREFIX, sp, t);
    assert !StartsWith(w, BUMPED_PREFIX) by {
      assert w[0] == '작';
      if |BUMPED_PREFIX| <= |w| {
        assert w[..|BUMPED_PREFIX|][0] == w[0];
      }
    }
  }

  /** After "끌올작성일" and blanks, the date text is what remains. */
  lemma BumpedLabelRemoved(sp: string, t: string)
    requires forall i :: 0 <= i < |sp| ==> IsSpace(sp[i])
    requires Trimmed(t) && '끌' !in t && '작' !in t
    ensures StripDatePrefixes(BUMPED_PREFIX + sp + t) == t
  {
    var b := BUMPED_PREFIX + sp + t;
    DropLabel(BUMPED_PREFIX, sp, t);
    NoLabelStart(t);
  }

  /**
   * A date text `t` (no label characters, no surrounding blanks) comes out
   * unchanged, whether bare, after "작성일" or after "끌올작성일", with any
   * whitespace between label and date.
   */
  lemma LabelsRemoved(sp: string, t: string)
    requires forall i :: 0 <= i < |sp| ==> IsSpace(sp[i])
    requires Trimmed(t) && '끌' !in t && '작' !in t
    ensures StripDatePrefixes(t) == t
    ensures StripDatePrefixes(WRITTEN_PREFIX + sp + t) == t
    ensures StripDatePrefixes(BUMPED_PREFIX + sp + t) == t
  {
    UnlabelledKept(t);
    WrittenLabelRemoved(sp, t);
    BumpedLabelRemoved(sp, t);
  }

  /** Removing the labels never removes any other character that is not blank. */
  lemma LabelsKeep(raw: string, c: char)
    requires c in raw && c !in BUMPED_PREFIX && !IsSpace(c)
    ensures c in StripDatePrefixes(raw)
  {
    var s := if StartsWith(raw, BUMPED_PREFIX) then Strip(Replace(raw, BUMPED_PREFIX, "")) else raw;
    if StartsWith(raw, BUMPED_PREFIX) {
      ReplaceKeeps(raw, BUMPED_PREFIX, "", c);
      StripKeeps(Replace(raw, BUMPED_PREFIX, ""), c);
    }
    if StartsWith(s, WRITTEN_PREFIX) {
      assert c !in WRITTEN_PREFIX by { assert WRITTEN_PREFIX == BUMPED_PREFIX[2..]; }
      ReplaceKeeps(s, WRITTEN_PREFIX, "", c);
      StripKeeps(Replace(s, WRITTEN_PREFIX, ""), c);
    }
  }
}
