/**
 * The tracking payloads. Every payload is sent with `type: 'visitor_tracking'`
 * and an `action` discriminator; here each builder of the source is one
 * variant of `Event`, holding the fields that are not ambient browser state
 * (timestamps, user agent, URL and title are left out).
 */
module Events {

  /** The identity fields and the defaulted referrer that page-level payloads carry. */
  datatype Common = Common(visitorId: string, sessionId: string, referrer: string)

  /** What the click handler reads of the `<a>` element it found. */
  datatype Link = Link(href: string, text: string, target: string)

  /** What the submit handler reads of the form. */
  datatype Form = Form(actionUrl: string, httpMethod: string, id: string, className: string)

  datatype Event =
    | Visit(common: Common, isNewVisitor: bool)
    | PageLoad(common: Common, isNewVisitor: bool)
    | LinkClick(common: Common, linkUrl: string, linkText: string, linkTarget: string, isExternal: bool)
    | FormSubmission(common: Common, formAction: string, formMethod: string, formId: string, formClass: string)
    | ScrollDepth(common: Common, scrollPercent: int)
    | TimeEvent(common: Common, timeSpent: int, isExit: bool)
    | Navigation(common: Common, eventType: string)
    | FocusChange(common: Common, hasFocus: bool)
    | UpdateSession(sessionId: string, duration: int)
    | SessionExit(sessionId: string, duration: int)
    | SessionReturn(sessionId: string)
    | Interaction(sessionId: string, interactionType: string, interactionCount: int)
  {
    /** The `action` field on the wire. */
    function Action(): string {
      match this
      case Visit(_, _) => "track_visit"
      case PageLoad(_, _) => "page_load"
      case LinkClick(_, _, _, _, _) => "link_click"
      case FormSubmission(_, _, _, _, _) => "form_submission"
      case ScrollDepth(_, _) => "scroll_depth"
      case TimeEvent(_, _, isExit) => if isExit then "page_exit" else "time_on_page"
      case Navigation(_, _) => "navigation_event"
      case FocusChange(_, hasFocus) => if hasFocus then "page_focus" else "page_blur"
      case UpdateSession(_, _) => "update_session"
      case SessionExit(_, _) => "track_exit"
      case SessionReturn(_) => "track_return"
      case Interaction(_, _, _) => "track_interaction"
    }

    /** The `sessionId` field, which every payload carries. */
    function SessionId(): string {
      if this.UpdateSession? || this.SessionExit? || this.SessionReturn? || this.Interaction?
      then this.sessionId
      else this.common.sessionId
    }
  }

  /** Two payloads with the same `action` come from the same builder and the same branch of its ternary. */
  lemma ActionIdentifiesVariant(e1: Event, e2: Event)
    requires e1.Action() == e2.Action()
    ensures e1.Visit? == e2.Visit? && e1.PageLoad? == e2.PageLoad?
    ensures e1.LinkClick? == e2.LinkClick? && e1.FormSubmission? == e2.FormSubmission?
    ensures e1.ScrollDepth? == e2.ScrollDepth? && e1.TimeEvent? == e2.TimeEvent?
    ensures e1.Navigation? == e2.Navigation? && e1.FocusChange? == e2.FocusChange?
    ensures e1.UpdateSession? == e2.UpdateSession? && e1.SessionExit? == e2.SessionExit?
    ensures e1.SessionReturn? == e2.SessionReturn? && e1.Interaction? == e2.Interaction?
    ensures e1.TimeEvent? ==> e1.isExit == e2.isExit
    ensures e1.FocusChange? ==> e1.hasFocus == e2.hasFocus
  {
  }

  // ---------------------------------------------------------------------------
  // The `|| default` fallbacks.

  const DirectReferrer: string := "direct"
  const SelfTarget: string := "_self"
  const UnnamedForm: string := "unnamed"

  /** `value || fallback` on a string: the empty string is the only falsy string. */
  function OrDefault(value: string, fallback: string): (r: string)
    requires fallback != []
    ensures r != []
    ensures value != [] ==> r == value
    ensures value == [] ==> r == fallback
  {
    if value == [] then fallback else value
  }

  /** The common fields, with `document.referrer || 'direct'`. */
  function MakeCommon(visitorId: string, sessionId: string, documentReferrer: string): (c: Common)
    ensures c.referrer != []
    ensures c.visitorId == visitorId && c.sessionId == sessionId
    ensures documentReferrer != [] ==> c.referrer == documentReferrer
    ensures documentReferrer == [] ==> c.referrer == DirectReferrer
  {
    Common(visitorId, sessionId, OrDefault(documentReferrer, DirectReferrer))
  }

  /** `!link.href.startsWith(window.location.origin)`. */
  predicate IsExternal(href: string, origin: string) {
    !(|origin| <= |href| && href[..|origin|] == origin)
  }

  /** A link is internal exactly when its address is the page origin followed by something. */
  lemma InternalIffUnderOrigin(href: string, origin: string)
    ensures !IsExternal(href, origin) <==> exists path: string :: href == origin + path
  {
    if !IsExternal(href, origin) {
      var path := href[|origin|..];
      assert href == origin + path;
    }
    forall path: string | href == origin + path
      ensures !IsExternal(href, origin)
    {
      assert href[..|origin|] == origin;
    }
  }

  /** The payload of `trackLinkClick`. */
  function LinkClickEvent(common: Common, link: Link, origin: string): (e: Event)
    ensures e.LinkClick? && e.Action() == "link_click"
    ensures e.common == common && e.linkUrl == link.href && e.linkText == link.text
    ensures e.linkTarget != [] && (link.target != [] ==> e.linkTarget == link.target)
    ensures link.target == [] ==> e.linkTarget == SelfTarget
    ensures !e.isExternal <==> exists path: string :: link.href == origin + path
  {
    InternalIffUnderOrigin(link.href, origin);
    LinkClick(common, link.href, link.text, OrDefault(link.target, SelfTarget), IsExternal(link.href, origin))
  }

  /** The payload of `trackFormSubmission`. */
  function FormSubmissionEvent(common: Common, form: Form): (e: Event)
    ensures e.FormSubmission? && e.Action() == "form_submission"
    ensures e.common == common
    ensures e.formId != [] && (form.id != [] ==> e.formId == form.id)
    ensures form.id == [] ==> e.formId == UnnamedForm
    ensures e.formAction == form.actionUrl && e.formMethod == form.httpMethod && e.formClass == form.className
  {
    FormSubmission(common, form.actionUrl, form.httpMethod, OrDefault(form.id, UnnamedForm), form.className)
  }
}
