/**
 * The Johnson Matthey footer fragment (jm-footer/index.js): configuration
 * defaults, the back-to-top button, the newsletter form's guard and message
 * slot, and the classification of social links.
 */
module JmFooter {
  import opened Wrappers
  import opened Text
  import opened EmailPattern

  // ---------------------------------------------------------------------------
  // Configuration

  /** The fragment's `configuration` object; every field may be undefined. */
  datatype RawConfig = RawConfig(
    showNewsletter: Option<bool>,
    showSocialMedia: Option<bool>,
    showBackToTop: Option<bool>,
    companyName: Option<string>,
    footerStyle: Option<string>,
    columnLayout: Option<string>,
    enableTracking: Option<bool>,
    newsletterService: Option<string>)

  datatype FooterConfig = FooterConfig(
    showNewsletter: bool,
    showSocialMedia: bool,
    showBackToTop: bool,
    companyName: string,
    footerStyle: string,
    columnLayout: string,
    enableTracking: bool,
    newsletterService: string)

  /** The values used when `configuration` is not defined at all. */
  const Defaults := FooterConfig(false, true, true, "Johnson Matthey", "dark", "5-column", true, "custom")

  /** `getFragmentConfiguration`: a flag falls back to its default only when
      undefined (`!== undefined`), a string whenever it is falsy (`||`). */
  function GetFragmentConfiguration(configuration: Option<RawConfig>): (c: FooterConfig)
    ensures configuration.None? ==> c == Defaults
    ensures configuration.Some? ==>
      var raw := configuration.value;
      && c.showNewsletter == raw.showNewsletter.GetOr(Defaults.showNewsletter)
      && c.showSocialMedia == raw.showSocialMedia.GetOr(Defaults.showSocialMedia)
      && c.showBackToTop == raw.showBackToTop.GetOr(Defaults.showBackToTop)
      && c.enableTracking == raw.enableTracking.GetOr(Defaults.enableTracking)
      && (Truthy(raw.companyName) ==> c.companyName == raw.companyName.value)
      && (!Truthy(raw.companyName) ==> c.companyName == Defaults.companyName)
      && (Truthy(raw.footerStyle) ==> c.footerStyle == raw.footerStyle.value)
      && (!Truthy(raw.footerStyle) ==> c.footerStyle == Defaults.footerStyle)
      && (Truthy(raw.columnLayout) ==> c.columnLayout == raw.columnLayout.value)
      && (!Truthy(raw.columnLayout) ==> c.columnLayout == Defaults.columnLayout)
      && (Truthy(raw.newsletterService) ==> c.newsletterService == raw.newsletterService.value)
      && (!Truthy(raw.newsletterService) ==> c.newsletterService == Defaults.newsletterService)
  {
    match configuration
    case None => Defaults
    case Some(raw) =>
      FooterConfig(
        raw.showNewsletter.GetOr(Defaults.showNewsletter),
        raw.showSocialMedia.GetOr(Defaults.showSocialMedia),
        raw.showBackToTop.GetOr(Defaults.showBackToTop),
        Or(raw.companyName, Defaults.companyName),
        Or(raw.footerStyle, Defaults.footerStyle),
        Or(raw.columnLayout, Defaults.columnLayout),
        raw.enableTracking.GetOr(Defaults.enableTracking),
        Or(raw.newsletterService, Defaults.newsletterService))
  }

  /** A configuration whose fields are all undefined or empty behaves like no
      configuration, and the text fields are never empty. */
  lemma EmptyConfigIsDefault(raw: RawConfig)
    requires raw.showNewsletter.None? && raw.showSocialMedia.None? && raw.showBackToTop.None? && raw.enableTracking.None?
    requires !Truthy(raw.companyName) && !Truthy(raw.footerStyle) && !Truthy(raw.columnLayout) && !Truthy(raw.newsletterService)
    ensures GetFragmentConfiguration(Some(raw)) == GetFragmentConfiguration(None)
  {
  }

  /** A given `false` is kept: a flag is not replaced by its default just for being falsy. */
  lemma FalseFlagKept(raw: RawConfig)
    requires raw.showSocialMedia == Some(false)
    ensures !GetFragmentConfiguration(Some(raw)).showSocialMedia
  {
  }

  lemma TextFieldsNonEmpty(configuration: Option<RawConfig>)
    ensures var c := GetFragmentConfiguration(configuration);
      c.companyName != [] && c.footerStyle != [] && c.columnLayout != [] && c.newsletterService != []
  {
  }

  /** Inline display of the newsletter section. */
  datatype SectionDisplay = Block | NoDisplay

  /** The newsletter section after `initializeFooter`, as written:
      `applyConfiguration` sets it from `showNewsletter`, and then
      `initializeNewsletter` sets `block` whenever the form is present. */
  function NewsletterDisplayAsWritten(c: FooterConfig, formPresent: bool): (d: SectionDisplay)
    ensures d == NoDisplay <==> !c.showNewsletter && !formPresent
  {
    var configured := if c.showNewsletter then Block else NoDisplay;
    if formPresent then Block else configured
  }

  /** The section follows `showNewsletter`, as `applyConfiguration` sets it.
      The comment in `initializeNewsletter` reads "Show newsletter section if
      configured (this could be controlled by fragment configuration)", then
      "For now, we'll show it by default": the two writers disagree, and the
      comment presents showing it by default as a stop-gap until the
      configuration decides. */
  function NewsletterDisplay(c: FooterConfig, formPresent: bool): (d: SectionDisplay)
    ensures d == Block <==> c.showNewsletter
  {
    if c.showNewsletter then Block else NoDisplay
  }

  /** As written, the newsletter is shown although it is switched off, and it
      is switched off by default: a page with no configuration shows it. */
  lemma DisabledNewsletterShown(configuration: Option<RawConfig>)
    requires !GetFragmentConfiguration(configuration).showNewsletter
    ensures NewsletterDisplayAsWritten(GetFragmentConfiguration(configuration), true) == Block
    ensures NewsletterDisplayAsWritten(GetFragmentConfiguration(None), true) == Block
    ensures !GetFragmentConfiguration(None).showNewsletter
  {
  }

  /** The corrected display hides a switched-off newsletter, the default
      included, and agrees with the written one whenever the newsletter is on. */
  lemma NewsletterFollowsConfig(configuration: Option<RawConfig>, formPresent: bool)
    ensures var c := GetFragmentConfiguration(configuration);
      NewsletterDisplay(c, formPresent) == NoDisplay <==> !c.showNewsletter
    ensures NewsletterDisplay(GetFragmentConfiguration(None), formPresent) == NoDisplay
    ensures var c := GetFragmentConfiguration(configuration);
      c.showNewsletter ==> NewsletterDisplay(c, formPresent) == NewsletterDisplayAsWritten(c, formPresent)
  {
  }

  // ---------------------------------------------------------------------------
  // Back to top

  const BackToTopThreshold := 500

  /** The back-to-top button: its `visible` class and its `aria-hidden` attribute. */
  class BackToTopButton {
    var visible: bool
    var ariaHidden: bool

    /** The button is hidden from assistive technology exactly when it is not visible. */
    ghost predicate Valid()
      reads this
    {
      ariaHidden == !visible
    }

    /** `initializeBackToTop` ends with an initial check at the current offset. */
    constructor (scrollTop: int)
      ensures Valid() && (visible <==> scrollTop > BackToTopThreshold)
    {
      visible := scrollTop > BackToTopThreshold;
      ariaHidden := !(scrollTop > BackToTopThreshold);
    }

    /** `toggleBackToTopButton`: visible iff the page is scrolled more than 500 pixels. */
    method Toggle(scrollTop: int)
      modifies this
      ensures Valid()
      ensures visible <==> scrollTop > BackToTopThreshold
    {
      if scrollTop > BackToTopThreshold {
        visible := true;
        ariaHidden := false;
      } else {
        visible := false;
        ariaHidden := true;
      }
    }
  }

  // ---------------------------------------------------------------------------
  // Newsletter

  datatype MessageType = ErrorMessage | SuccessMessage

  /** A `.jm-newsletter-message` element: its text and its type. */
  datatype Message = Message(text: string, kind: MessageType)

  const InvalidEmailText := "Please enter a valid email address."
  const ThanksText := "Thank you for subscribing! You'll receive a confirmation email shortly."

  /** The newsletter guard: the trimmed value is rejected when empty (`!email`)
      or not a valid address. The emptiness test adds nothing, since the empty
      string is never valid. */
  predicate RejectsEmail(email: string)
  {
    email == [] || !IsValidEmail(email)
  }

  lemma EmptyTestRedundant(email: string)
    ensures RejectsEmail(email) <==> !IsValidEmail(email)
  {
  }

  /** The newsletter form: the messages after it, and the addresses that reached
      the (simulated) subscription step, in order. */
  class Newsletter {
    var messages: seq<Message>
    var subscribed: seq<string>

    /** At most one message is shown, and every subscribed address is a trimmed, valid one. */
    ghost predicate Valid()
      reads this
    {
      |messages| <= 1 && forall k :: 0 <= k < |subscribed| ==> IsValidEmail(subscribed[k])
    }

    constructor ()
      ensures Valid() && messages == [] && subscribed == []
    {
      messages, subscribed := [], [];
    }

    /** `showNewsletterMessage`: removes the message already shown, if any, then
        inserts the new one after the form when the form is present. */
    method ShowNewsletterMessage(text: string, kind: MessageType, formPresent: bool)
      requires Valid()
      modifies this`messages
      ensures Valid()
      ensures messages == if formPresent then [Message(text, kind)] else []
    {
      if |messages| > 0 {
        messages := messages[1..];
      }
      if formPresent {
        messages := messages + [Message(text, kind)];
      }
    }

    /** `handleNewsletterSubmission` on the form (which is present, since it
        raised the event) holding `value`: an empty or invalid trimmed address
        shows the error and stops; a valid one goes on to subscription. */
    method HandleNewsletterSubmission(value: string) returns (accepted: bool)
      requires Valid()
      modifies this
      ensures Valid()
      ensures accepted <==> IsValidEmail(Trim(value))
      ensures !accepted ==> messages == [Message(InvalidEmailText, ErrorMessage)] && subscribed == old(subscribed)
      ensures accepted ==> subscribed == old(subscribed) + [Trim(value)] && messages == old(messages)
    {
      var email := Trim(value);
      if RejectsEmail(email) {
        ShowNewsletterMessage(InvalidEmailText, ErrorMessage, true);
        return false;
      }
      subscribed := subscribed + [email];
      return true;
    }

    /** The delayed success step: the thank-you message replaces any other. */
    method ConfirmSubscription(formPresent: bool)
      requires Valid()
      modifies this`messages
      ensures Valid()
      ensures messages == if formPresent then [Message(ThanksText, SuccessMessage)] else []
    {
      ShowNewsletterMessage(ThanksText, SuccessMessage, formPresent);
    }
  }

  /** An address typed with surrounding white space is judged by its trimmed
      form: padding a valid address never makes the form reject it. */
  lemma PaddingIgnored(email: string, before: string, after: string)
    requires IsValidEmail(email) && AllWhitespace(before) && AllWhitespace(after)
    ensures Trim(before + email + after) == email
    ensures !RejectsEmail(Trim(before + email + after))
  {
    assert email != [] by { assert '@' in email; }
    TrimPadded(before, email, after);
  }

  // ---------------------------------------------------------------------------
  // Social links

  /** `getSocialPlatform(url)`: the first of linkedin, youtube, instagram and
      twitter that occurs in the url, else `unknown`. */
  function GetSocialPlatform(url: string): (r: string)
    ensures r == "linkedin" <==> Contains(url, "linkedin")
    ensures r == "youtube" <==> !Contains(url, "linkedin") && Contains(url, "youtube")
    ensures r == "instagram" <==> !Contains(url, "linkedin") && !Contains(url, "youtube") && Contains(url, "instagram")
    ensures r == "twitter" <==>
      !Contains(url, "linkedin") && !Contains(url, "youtube") && !Contains(url, "instagram") && Contains(url, "twitter")
    ensures r == "unknown" <==>
      !Contains(url, "linkedin") && !Contains(url, "youtube") && !Contains(url, "instagram") && !Contains(url, "twitter")
  {
    if Contains(url, "linkedin") then "linkedin"
    else if Contains(url, "youtube") then "youtube"
    else if Contains(url, "instagram") then "instagram"
    else if Contains(url, "twitter") then "twitter"
    else "unknown"
  }

  /** A platform other than `unknown` is always named in the url itself. */
  lemma PlatformNamedInUrl(url: string)
    ensures GetSocialPlatform(url) != "unknown" ==> Contains(url, GetSocialPlatform(url))
  {
  }
}
