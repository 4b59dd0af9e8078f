/** `GitHubTokenActivity` and the token setter it calls: saving, clearing and
    displaying a hand-set access token. The secure store is modelled as the value it
    holds (`None` when there is no token); its encryption is not part of this model. */
module TokenScreen {

  import opened Wrappers
  import opened Text

  const MaskFill: string := "****"
  const KeptEnds: int := 4
  const MinMaskedLength: int := 8

  /** `setGitHubToken`: a missing or blank token clears the store, anything else is
      stored as given. */
  function SetGitHubToken(token: Option<string>): (stored: Option<string>)
    ensures stored.None? <==> IsNullOrBlank(token)
    ensures stored.Some? ==> stored == token
  {
    if IsNullOrBlank(token) then None else token
  }

  /** The buttons of the token screen. `Save` carries the field's text (`None` when
      the field has none). */
  datatype Action = Save(text: Option<string>) | Clear

  /** The stored token after an action: Save stores the trimmed text, or clears the
      store when nothing is left after trimming; Clear always clears it. */
  function Apply(a: Action): (stored: Option<string>)
    ensures a.Clear? ==> stored.None?
    ensures a.Save? ==> (stored.None? <==> a.text.None? || IsBlank(a.text.value))
    ensures a.Save? && stored.Some? ==> stored.value == Trim(a.text.value)
    ensures stored.Some? ==> |stored.value| > 0 && !IsWhitespace(stored.value[0]) && !IsWhitespace(stored.value[|stored.value| - 1])
  {
    match a
    case Clear => SetGitHubToken(None)
    case Save(text) =>
      var token := if text.Some? then Some(Trim(text.value)) else None;
      if token.None? || |token.value| == 0 then SetGitHubToken(None) else SetGitHubToken(token)
  }

  /** The first four characters, four stars, and the last four. */
  function Mask(token: string): (r: string)
    requires |token| > MinMaskedLength
    ensures |r| == 12
    ensures r[..KeptEnds] == token[..KeptEnds] && r[KeptEnds..8] == MaskFill && r[8..] == token[|token| - KeptEnds..]
  {
    token[..KeptEnds] + MaskFill + token[|token| - KeptEnds..]
  }

  /** `loadCurrentToken`: the text put in the field, if any; tokens of eight
      characters or fewer are not shown at all. */
  function Display(stored: Option<string>): (r: Option<string>)
    ensures r.Some? <==> stored.Some? && |stored.value| > MinMaskedLength
    ensures r.Some? ==> r.value == Mask(stored.value)
  {
    if stored.Some? && |stored.value| > MinMaskedLength then Some(Mask(stored.value)) else None
  }

  /** Masking a mask changes nothing. */
  lemma MaskIsFixed(token: string)
    requires |token| > MinMaskedLength
    ensures Mask(Mask(token)) == Mask(token)
  {
    var m := Mask(token);
    assert Mask(m)[..KeptEnds] == m[..KeptEnds];
    assert Mask(m)[8..] == m[8..];
  }

  /** Pressing Save on the displayed text without editing it stores the mask itself:
      saving does not recognise a mask. The token is lost unless it already had the
      shape of its mask. */
  lemma SavingMaskStoresMask(text: Option<string>)
    requires var stored := Apply(Save(text)); stored.Some? && |stored.value| > MinMaskedLength
    ensures var stored := Apply(Save(text));
            && Apply(Save(Display(stored))) == Display(stored)
            && (|stored.value| != 12 ==> Apply(Save(Display(stored))) != stored)
  {
    var token := Apply(Save(text)).value;
    var m := Mask(token);
    assert m[0] == token[0] && m[11] == token[|token| - 1] by {
      assert m[..KeptEnds][0] == m[0];
      assert m[8..][3] == m[11];
    }
    TrimmedIsFixed(m);
  }
}
