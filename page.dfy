/** The script's top level: avatar list, selection, token, then the filled-in viewer page. */
module Page {
  import opened Payload
  import Avatars
  import Lookup
  import Token
  import Template

  /** Why the page stops before showing the viewer. */
  datatype PageError =
    | NoAvatars                      // the "No Interactive Avatars returned" stop
    | KeyError(title: string)        // `dict(avatar_choices)[label]` without that key
    | RuntimeError(message: string)  // `create_streaming_token` found no token

  /** Runs the page with the decoded responses, the title picked in the dropdown,
      the voice id typed in, and the contents of the viewer template. */
  method RenderPage(avatars: AvatarListPayload, selected: string, voiceId: string,
                    tokenResponse: Token.TokenResponse, html: string)
    returns (r: Result<string, PageError>)
    ensures r == Err(NoAvatars) <==> Avatars.Normalised(avatars) == []
    ensures r.Err? && r.error.KeyError? <==>
      Avatars.Normalised(avatars) != [] && Lookup.LookupId(Avatars.Normalised(avatars), selected).None?
    ensures selected in Lookup.Labels(Avatars.Normalised(avatars)) ==> !(r.Err? && r.error.KeyError?)
    ensures r.Ok? <==>
      && Avatars.Normalised(avatars) != []
      && Lookup.LookupId(Avatars.Normalised(avatars), selected).Some?
      && Token.CreateStreamingToken(tokenResponse).Ok?
    ensures r.Err? && r.error.KeyError? ==> r.error.title == selected
    ensures Avatars.Normalised(avatars) != [] && Lookup.LookupId(Avatars.Normalised(avatars), selected).Some?
            && Token.CreateStreamingToken(tokenResponse).Err? ==>
      r == Err(RuntimeError(Token.CreateStreamingToken(tokenResponse).error))
    ensures r.Ok? ==> r.value == Template.Substitute(html,
      Token.CreateStreamingToken(tokenResponse).value,
      Lookup.LookupId(Avatars.Normalised(avatars), selected).value, voiceId)
  {
    var choices := Avatars.FetchInteractiveAvatars(avatars);
    if choices == [] {
      return Err(NoAvatars);
    }
    Lookup.LookupResult(choices, selected);
    var avatarId := Lookup.LookupId(choices, selected);
    if avatarId.None? {
      return Err(KeyError(selected));
    }
    var token := Token.CreateStreamingToken(tokenResponse);
    if token.Err? {
      return Err(RuntimeError(token.error));
    }
    r := Ok(Template.Substitute(html, token.value, avatarId.value, voiceId));
  }
}
