/** The link `openInChat` opens (script.js:384-410): the final text,
    URL-encoded, appended to the active platform's address with the query
    that platform expects. */
module Chat {
  import opened Options
  import opened Extractor
  import opened Renderer

  /** The active platform tag: its `data-platform` and `data-url`. */
  datatype Platform = Platform(id: string, url: string)

  /** What goes between the address and the encoded text. */
  function QueryFor(id: string): string {
    if id == "chatgpt" || id == "github-copilot" then "?prompt="
    else if id == "grok" then "&q="
    else if id == "perplexity" then "/search?q="
    else "?q="
  }

  /** The link for a platform, an address and an already encoded text. */
  function ChatUrl(id: string, base: string, encoded: string): (url: string)
    ensures id == "chatgpt" || id == "github-copilot" ==> url == base + "?prompt=" + encoded
    ensures id == "grok" ==> url == base + "&q=" + encoded
    ensures id == "perplexity" ==> url == base + "/search?q=" + encoded
    ensures id !in {"chatgpt", "github-copilot", "grok", "perplexity"} ==> url == base + "?q=" + encoded
  {
    base + QueryFor(id) + encoded
  }

  /** The encoded text of a link, read back given the platform and
      address. */
  function EncodedPart(id: string, base: string, url: string): (r: Option<string>)
    ensures r.Some? ==> ChatUrl(id, base, r.value) == url
  {
    var head := base + QueryFor(id);
    if head <= url then
      assert url == head + url[|head|..];
      Some(url[|head|..])
    else None
  }

  /** The encoded text can be read back from every link, so different texts
      give different links. */
  lemma ChatUrlRoundTrip(id: string, base: string, encoded: string)
    ensures EncodedPart(id, base, ChatUrl(id, base, encoded)) == Some(encoded)
  {
    var head := base + QueryFor(id);
    assert ChatUrl(id, base, encoded) == head + encoded;
    assert (head + encoded)[|head|..] == encoded;
  }

  lemma ChatUrlInjective(id: string, base: string, e1: string, e2: string)
    requires ChatUrl(id, base, e1) == ChatUrl(id, base, e2)
    ensures e1 == e2
  {
    ChatUrlRoundTrip(id, base, e1);
    ChatUrlRoundTrip(id, base, e2);
  }

  /** `openInChat(promptText)`: no link without an active platform;
      otherwise the link for the final text of the prompt, encoded by
      `encode` (`encodeURIComponent`). */
  function OpenInChat(promptText: string, prefs: Preferences, active: Option<Platform>,
                      encode: string -> string): (r: Option<string>)
    requires Substitutable(Extract(promptText))
    ensures r.None? <==> active.None?
    ensures r.Some? ==>
              EncodedPart(active.value.id, active.value.url, r.value) == Some(encode(BuildPrompt(promptText, prefs)))
  {
    match active
    case None => None
    case Some(p) =>
      var url := ChatUrl(p.id, p.url, encode(BuildPrompt(promptText, prefs)));
      ChatUrlRoundTrip(p.id, p.url, encode(BuildPrompt(promptText, prefs)));
      Some(url)
  }
}
