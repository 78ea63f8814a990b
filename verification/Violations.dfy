/**
 * The checks of a configuration, as the loops that collect what is wrong, and what they find.
 * (internal/config/validate.go)
 */
module Violations {
  import opened Text
  import opened Resolver

  /** A rule broken, and where: sessions and templates by name, windows and panes by position. */
  datatype Violation =
    | TemplateChain(name: string) | TemplateRoot(name: string)
    | SessionRoot(session: string)
    | WindowRoot(session: string, window: nat) | UnknownTemplate(session: string, window: nat)
    | UnknownLayout(session: string, window: nat) | PaneCount(session: string, window: nat)
    | PaneRoot(session: string, window: nat, pane: nat)
    | MalformedTtl | TtlNotPositive | TtlTooLong | ReservedName

  predicate UnknownRoot(c: Config, root: string) { root != "" && root !in c.roots }

  predicate WindowViolates(c: Config, session: string, i: nat, w: Window, v: Violation) {
    match v
    case WindowRoot(_, _) => v == WindowRoot(session, i) && UnknownRoot(c, w.root)
    case UnknownTemplate(_, _) => v == UnknownTemplate(session, i) && w.extends_ != "" && w.extends_ !in c.templates
    case UnknownLayout(_, _) => v == UnknownLayout(session, i) && w.layout !in {"", "1-pane", "2-pane", "3-pane"} && w.layout !in c.layouts
    case PaneCount(_, _) =>
      v == PaneCount(session, i) && |w.panes| > 0
      && ((w.layout == "1-pane" && |w.panes| != 1) || (w.layout == "2-pane" && |w.panes| != 2) || (w.layout == "3-pane" && |w.panes| != 3))
    case PaneRoot(_, _, j) => v == PaneRoot(session, i, j) && j < |w.panes| && UnknownRoot(c, w.panes[j].root)
    case _ => false
  }

  predicate SessionViolates(c: Config, name: string, s: Session, v: Violation) {
    || (v == SessionRoot(name) && UnknownRoot(c, s.root))
    || exists i :: 0 <= i < |s.windows| && WindowViolates(c, name, i, s.windows[i].1, v)
  }

  predicate TemplateViolates(c: Config, name: string, t: Window, v: Violation) {
    (v == TemplateChain(name) && t.extends_ != "") || (v == TemplateRoot(name) && UnknownRoot(c, t.root))
  }

  /** Rules on tracking active windows; a malformed duration ends these checks. */
  predicate ActiveViolates(c: Config, v: Violation) {
    match v
    case MalformedTtl => c.ttlMalformed
    case TtlNotPositive => !c.ttlMalformed && c.ttl.Some? && c.ttl.value <= 0
    case TtlTooLong => !c.ttlMalformed && c.ttl.Some? && c.ttl.value > 720 * 3600
    case ReservedName => !c.ttlMalformed && c.activeEnabled && "active" in c.sessions
    case _ => false
  }

  predicate Violates(c: Config, v: Violation) {
    || (exists t :: t in c.templates && TemplateViolates(c, t, c.templates[t], v))
    || (exists n :: n in c.sessions && SessionViolates(c, n, c.sessions[n], v))
    || ActiveViolates(c, v)
  }

  // ---- the loops ------------------------------------------------------------------------------------

  method ValidateWindow(c: Config, session: string, i: nat, w: Window) returns (out: seq<Violation>)
    ensures forall v :: v in out <==> WindowViolates(c, session, i, w, v)
  {
    out := [];
    if w.root != "" && w.root !in c.roots { out := out + [WindowRoot(session, i)]; }
    if w.extends_ != "" && w.extends_ !in c.templates { out := out + [UnknownTemplate(session, i)]; }
    var expected := 0;
    if w.layout != "" {
      if w.layout in BUILTIN_LAYOUTS {
        expected := BUILTIN_LAYOUTS[w.layout];
      } else if w.layout !in c.layouts {
        out := out + [UnknownLayout(session, i)];
      }
    }
    if |w.panes| > 0 && expected > 0 && |w.panes| != expected { out := out + [PaneCount(session, i)]; }
    for j := 0 to |w.panes|
      invariant forall v :: v in out <==> WindowViolates(c, session, i, w, v) && (v.PaneRoot? ==> v.pane < j)
    {
      if w.panes[j].root != "" && w.panes[j].root !in c.roots { out := out + [PaneRoot(session, i, j)]; }
    }
  }

  method ValidateSession(c: Config, name: string, s: Session) returns (out: seq<Violation>)
    ensures forall v :: v in out <==> SessionViolates(c, name, s, v)
  {
    out := [];
    if s.root != "" && s.root !in c.roots { out := out + [SessionRoot(name)]; }
    for i := 0 to |s.windows|
      invariant forall v :: v in out <==> (v == SessionRoot(name) && UnknownRoot(c, s.root))
                                          || exists k :: 0 <= k < i && WindowViolates(c, name, k, s.windows[k].1, v)
    {
      var found := ValidateWindow(c, name, i, s.windows[i].1);
      out := out + found;
    }
  }

  method ValidateActive(c: Config) returns (out: seq<Violation>)
    ensures forall v :: v in out <==> ActiveViolates(c, v)
  {
    out := [];
    if c.ttlMalformed { return [MalformedTtl]; }
    if c.ttl.Some? {
      if c.ttl.value <= 0 { out := out + [TtlNotPositive]; }
      if c.ttl.value > MAX_TTL { out := out + [TtlTooLong]; }
    }
    if c.activeEnabled && "active" in c.sessions { out := out + [ReservedName]; }
  }

  /** Collects every violation, going through templates and sessions in whatever order they come. */
  method Validate(c: Config) returns (out: seq<Violation>)
    ensures forall v :: v in out <==> Violates(c, v)
    ensures out == [] <==> Valid(c)
  {
    hide TemplateViolates, SessionViolates, ActiveViolates, Valid;
    out := [];
    var templates := c.templates.Keys;
    while templates != {}
      invariant templates <= c.templates.Keys
      invariant forall v :: v in out <==> exists t :: t in c.templates && t !in templates && TemplateViolates(c, t, c.templates[t], v)
      decreases |templates|
    {
      var t :| t in templates;
      templates := templates - {t};
      var found := ValidateTemplate(c, t, c.templates[t]);
      out := out + found;
    }
    ghost var before := out;
    var sessions := c.sessions.Keys;
    while sessions != {}
      invariant sessions <= c.sessions.Keys
      invariant forall v :: v in out <==> v in before || exists n :: n in c.sessions && n !in sessions && SessionViolates(c, n, c.sessions[n], v)
      decreases |sessions|
    {
      var n :| n in sessions;
      sessions := sessions - {n};
      var found := ValidateSession(c, n, c.sessions[n]);
      out := out + found;
    }
    var found := ValidateActive(c);
    out := out + found;
    ValidMeans(c);
    if out != [] { assert out[0] in out; }
  }

  method ValidateTemplate(c: Config, name: string, t: Window) returns (out: seq<Violation>)
    ensures forall v :: v in out <==> TemplateViolates(c, name, t, v)
  {
    out := [];
    if t.extends_ != "" { out := out + [TemplateChain(name)]; }
    if t.root != "" && t.root !in c.roots { out := out + [TemplateRoot(name)]; }
  }

  // ---- valid means nothing is violated -----------------------------------------------------------------

  lemma WindowMeansValid(c: Config, session: string, i: nat, w: Window)
    ensures ValidWindow(c, w) <==> forall v :: !WindowViolates(c, session, i, w, v)
  {
    if forall v :: !WindowViolates(c, session, i, w, v) {
      assert !WindowViolates(c, session, i, w, WindowRoot(session, i));
      assert !WindowViolates(c, session, i, w, UnknownTemplate(session, i));
      assert !WindowViolates(c, session, i, w, UnknownLayout(session, i));
      assert !WindowViolates(c, session, i, w, PaneCount(session, i));
      forall j | 0 <= j < |w.panes| ensures RootOk(c, w.panes[j].root) { assert !WindowViolates(c, session, i, w, PaneRoot(session, i, j)); }
    }
  }

  lemma SessionMeansValid(c: Config, name: string, s: Session)
    ensures ValidSession(c, s) <==> forall v :: !SessionViolates(c, name, s, v)
  {
    hide ValidWindow, WindowViolates;
    forall i | 0 <= i < |s.windows| ensures ValidWindow(c, s.windows[i].1) <==> forall v :: !WindowViolates(c, name, i, s.windows[i].1, v) {
      WindowMeansValid(c, name, i, s.windows[i].1);
    }
    if forall v :: !SessionViolates(c, name, s, v) {
      assert !SessionViolates(c, name, s, SessionRoot(name));
      forall i | 0 <= i < |s.windows| ensures ValidWindow(c, s.windows[i].1) {
        forall v ensures !WindowViolates(c, name, i, s.windows[i].1, v) { assert !SessionViolates(c, name, s, v); }
      }
    }
  }

  /** A configuration is valid exactly if it breaks none of the rules. */
  lemma ValidMeans(c: Config)
    ensures Valid(c) <==> forall v :: !Violates(c, v)
  {
    hide ValidSession, SessionViolates;
    forall n | n in c.sessions ensures ValidSession(c, c.sessions[n]) <==> forall v :: !SessionViolates(c, n, c.sessions[n], v) {
      SessionMeansValid(c, n, c.sessions[n]);
    }
    if forall v :: !Violates(c, v) {
      forall t | t in c.templates ensures c.templates[t].extends_ == "" && RootOk(c, c.templates[t].root) {
        assert !Violates(c, TemplateChain(t)) && !Violates(c, TemplateRoot(t));
        assert !TemplateViolates(c, t, c.templates[t], TemplateChain(t)) && !TemplateViolates(c, t, c.templates[t], TemplateRoot(t));
      }
      forall n | n in c.sessions ensures ValidSession(c, c.sessions[n]) {
        forall v ensures !SessionViolates(c, n, c.sessions[n], v) { assert !Violates(c, v); }
      }
      assert !Violates(c, MalformedTtl) && !Violates(c, TtlNotPositive) && !Violates(c, TtlTooLong) && !Violates(c, ReservedName);
    }
  }
}
