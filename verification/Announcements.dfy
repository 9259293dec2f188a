/** Which notifications are published: exactly those of the endpoints that are configured. */
module Announcements {
  import opened Wrappers
  import opened Endpoint
  import opened AgentState
  import opened NotificationKeys
  import opened Scheduler

  /** The publisher carries out what it is asked. */
  predicate PublisherWorks(e: Event) {
    match e
    case CreateEvent(cfg, _, _, put) => forall i: nat :: i < |cfg.advertisedLabels| ==> put(i)
    case DeleteEvent(cfg, _, _, _, unput) => forall i: nat :: i < |cfg.advertisedLabels| ==> unput(i)
    case RequestEvent(_, _, _) => true
    case CloseEvent(_, _) => true
  }

  ghost predicate Offers(a: Agent, n: string, k: string) {
    n in a.configured && k in Notifications(a.configured[n])
  }

  /** The published keys are those of the configured endpoints. */
  ghost predicate PublishedExact(a: Agent) {
    forall k :: k in a.published <==> exists n :: Offers(a, n, k)
  }

  /** A deletion withdraws no key that another configured endpoint offers as well. */
  ghost predicate Unshared(a: Agent, e: Event) {
    e.DeleteEvent? ==>
      forall n, k :: Offers(a, n, k) && n != e.cfg.networkService ==> k !in Notifications(e.cfg)
  }

  /** A publisher that works for every label publishes, or withdraws, all notifications of the endpoint. */
  lemma AllEffective(cfg: EndpointConfig, works: nat -> bool)
    requires forall i: nat :: i < |cfg.advertisedLabels| ==> works(i)
    ensures Effective(cfg, works) == Notifications(cfg)
  {
    forall k | k in Notifications(cfg) ensures k in Effective(cfg, works) {
      var l :| l in cfg.advertisedLabels && k == Key(cfg.networkService, l.key, l.value);
      var i :| 0 <= i < |cfg.advertisedLabels| && cfg.advertisedLabels[i] == l;
      assert k == LabelKey(cfg, i);
    }
    forall k | k in Effective(cfg, works) ensures k in Notifications(cfg) {
      var i: nat :| i < |cfg.advertisedLabels| && k == LabelKey(cfg, i);
      assert cfg.advertisedLabels[i] in cfg.advertisedLabels;
    }
  }

  lemma CreatePublishes(a: Agent, cfg: EndpointConfig, setup: Setup, registered: Option<string>,
                          put: nat -> bool)
    requires PublishedExact(a) && cfg.networkService !in a.configured
    requires forall i: nat :: i < |cfg.advertisedLabels| ==> put(i)
    ensures PublishedExact(Create(a, cfg, setup, registered, put).0)
  {
    var b := Create(a, cfg, setup, registered, put).0;
    var n := cfg.networkService;
    AllEffective(cfg, put);
    forall k ensures k in b.published <==> exists n' :: Offers(b, n', k) {
      assert forall n' :: n' != n ==> (Offers(b, n', k) <==> Offers(a, n', k));
      assert !Offers(a, n, k);
      if AddEndpoint(a, cfg, setup, registered).1.None? {
        assert Offers(b, n, k) <==> k in Notifications(cfg);
      } else {
        assert Offers(b, n, k) <==> Offers(a, n, k);
      }
    }
  }

  /** What a deletion does to configuration and publications. */
  lemma DeletionEffect(a: Agent, e: Event)
    requires e.DeleteEvent? && PublisherWorks(e)
    ensures Step(a, e).published == a.published - Notifications(e.cfg)
    ensures Step(a, e).configured == a.configured - {e.cfg.networkService}
  {
    AllEffective(e.cfg, e.unput);
    DeletionSpares(a, e.cfg.networkService, e.order, e.ws, e.removed);
  }

  /** The demultiplexer does not touch what belongs to the descriptor. */
  lemma DeletionSpares(a: Agent, n: string, order: seq<string>, ws: string -> Workspace, removed: bool)
    ensures var b := DeleteEndpoint(a, n, order, ws, removed).0;
            b.configured == a.configured && b.published == a.published
  {
  }

  lemma OffersAfterDeletion(a: Agent, e: Event, n: string, k: string)
    requires e.DeleteEvent? && PublisherWorks(e)
    ensures Offers(Step(a, e), n, k) <==> Offers(a, n, k) && n != e.cfg.networkService
    ensures k in Step(a, e).published <==> k in a.published && k !in Notifications(e.cfg)
  {
    DeletionEffect(a, e);
  }

  lemma SharedDeletionHides(a: Agent, e: Event, n: string, k: string)
    requires e.DeleteEvent? && PublisherWorks(e)
    requires Offers(a, n, k) && n != e.cfg.networkService && k in Notifications(e.cfg)
    ensures !PublishedExact(Step(a, e))
  {
    OffersAfterDeletion(a, e, n, k);
  }

  lemma UnsharedDeletionWithdraws(a: Agent, e: Event)
    requires e.DeleteEvent? && PublishedExact(a) && Scheduled(a, e) && PublisherWorks(e) && Unshared(a, e)
    ensures PublishedExact(Step(a, e))
  {
    var b := Step(a, e);
    forall k ensures k in b.published <==> exists n :: Offers(b, n, k) {
      forall n ensures Offers(b, n, k) <==> Offers(a, n, k) && n != e.cfg.networkService {
        OffersAfterDeletion(a, e, n, k);
      }
      OffersAfterDeletion(a, e, e.cfg.networkService, k);
      if k in b.published {
        var n :| Offers(a, n, k);
        assert Offers(b, n, k);
      }
    }
  }

  /** A deletion keeps publications exact if and only if no one else offers what it withdraws. */
  lemma DeleteWithdraws(a: Agent, e: Event)
    requires e.DeleteEvent? && PublishedExact(a) && Scheduled(a, e) && PublisherWorks(e)
    ensures PublishedExact(Step(a, e)) <==> Unshared(a, e)
  {
    if Unshared(a, e) {
      UnsharedDeletionWithdraws(a, e);
    } else {
      var n, k :| Offers(a, n, k) && n != e.cfg.networkService && k in Notifications(e.cfg);
      SharedDeletionHides(a, e, n, k);
    }
  }

  /** The notification law for a step: exactness is kept precisely by deletions of keys nobody shares. */
  lemma StepKeepsPublishedIff(a: Agent, e: Event)
    requires PublishedExact(a) && Scheduled(a, e) && PublisherWorks(e)
    ensures PublishedExact(Step(a, e)) <==> Unshared(a, e)
  {
    match e
    case CreateEvent(cfg, setup, registered, put) => CreatePublishes(a, cfg, setup, registered, put);
    case DeleteEvent(_, _, _, _, _) => DeleteWithdraws(a, e);
    case RequestEvent(_, _, _) => assert forall n, k :: Offers(Step(a, e), n, k) <==> Offers(a, n, k);
    case CloseEvent(_, _) => assert forall n, k :: Offers(Step(a, e), n, k) <==> Offers(a, n, k);
  }

  // ---------- keys of different services ----------

  /** Every label of the endpoint survives printing into a key and parsing it. */
  ghost predicate Clear(cfg: EndpointConfig) {
    forall l :: l in cfg.advertisedLabels ==>
      Carried(Parsed(cfg.networkService, OrInvalid(l.key), OrInvalid(l.value)))
  }

  /** The key is read back as the service and label `i` of the endpoint; an empty field is shown as invalid. */
  ghost predicate Tells(k: string, cfg: EndpointConfig, i: nat)
    requires i < |cfg.advertisedLabels|
  {
    var l := cfg.advertisedLabels[i];
    ParseDocumented(k) == Some(Parsed(cfg.networkService, if l.key == "" then "<invalid>" else l.key,
                                      if l.value == "" then "<invalid>" else l.value))
  }

  /** The keys that an endpoint announces are exactly those that tell its service and one of its labels. */
  lemma LabelKeyTells(cfg: EndpointConfig, i: nat, k: string)
    requires Clear(cfg) && i < |cfg.advertisedLabels|
    ensures k == LabelKey(cfg, i) <==> Tells(k, cfg, i)
  {
    var l := cfg.advertisedLabels[i];
    assert l in cfg.advertisedLabels;
    var p := Parsed(cfg.networkService, OrInvalid(l.key), OrInvalid(l.value));
    KeyRoundTrip(p);
    assert Key(cfg.networkService, l.key, l.value) == Key(p.ns, p.labelKey, p.labelValue);
    ParseDocumentedExact(k, p);
    ParseDocumentedExact(LabelKey(cfg, i), p);
  }

  /** Some label with a working publisher is told by the key. */
  ghost predicate Told(k: string, cfg: EndpointConfig, works: nat -> bool) {
    exists i: nat :: i < |cfg.advertisedLabels| && works(i) && Tells(k, cfg, i)
  }

  lemma EffectiveTold(cfg: EndpointConfig, works: nat -> bool, k: string)
    requires Clear(cfg)
    ensures k in Effective(cfg, works) <==> Told(k, cfg, works)
  {
    forall i: nat | i < |cfg.advertisedLabels| ensures k == LabelKey(cfg, i) <==> Tells(k, cfg, i) {
      LabelKeyTells(cfg, i, k);
    }
  }

  /** What a creation publishes, with any failures: a successful one adds the keys that tell its published labels. */
  lemma CreationTold(a: Agent, cfg: EndpointConfig, setup: Setup, registered: Option<string>, put: nat -> bool,
                     k: string)
    requires Clear(cfg)
    ensures k in Create(a, cfg, setup, registered, put).0.published <==>
            k in a.published || ((a.connected || setup == SetupOk) && registered.Some? && Told(k, cfg, put))
  {
    EffectiveTold(cfg, put, k);
  }

  /** What a deletion withdraws, even if the endpoint cannot be deleted. */
  lemma DeletionTold(a: Agent, cfg: EndpointConfig, order: seq<string>, ws: string -> Workspace, removed: bool,
                     unput: nat -> bool, k: string)
    requires Clear(cfg)
    ensures k in Delete(a, cfg, order, ws, removed, unput).published <==> k in a.published && !Told(k, cfg, unput)
  {
    EffectiveTold(cfg, unput, k);
    DeletionSpares(a, cfg.networkService, order, ws, removed);
  }

  /** The notifications of an endpoint tell its labels. */
  lemma NotificationsTold(cfg: EndpointConfig, k: string)
    requires Clear(cfg)
    ensures k in Notifications(cfg) <==> Told(k, cfg, (_: nat) => true)
  {
    AllEffective(cfg, (_: nat) => true);
    EffectiveTold(cfg, (_: nat) => true, k);
  }

  lemma KeysOfDifferentServices(c: EndpointConfig, d: EndpointConfig)
    requires Clear(c) && Clear(d) && c.networkService != d.networkService
    ensures Notifications(c) !! Notifications(d)
  {
    forall k | k in Notifications(c) ensures k !in Notifications(d) {
      NotificationsTold(c, k);
      NotificationsTold(d, k);
    }
  }

  /**
   With slashes in a label key two services can share a notification (and a deletion of one then silences the
   other): "/label/" may be read as part of the service name or as part of the label key.
   */
  lemma SlashesShareKeys(ns: string, middle: string, labelKey: string, labelValue: string)
    requires ns != "" && labelKey != "" && labelValue != ""
    requires '{' !in ns && '{' !in middle && '{' !in labelKey
    ensures var bridge := [SLASH] + "label" + [SLASH];
            Key(ns, middle + bridge + labelKey, labelValue) == Key(ns + bridge + middle, labelKey, labelValue)
  {
    var bridge := [SLASH] + "label" + [SLASH];
    var p := Parsed(ns, middle + bridge + labelKey, labelValue);
    var q := Parsed(ns + bridge + middle, labelKey, labelValue);
    PlainFieldsPrint(p);
    PlainFieldsPrint(q);
    ReadTwoWays(ns, [SLASH], "label", middle, labelKey, labelValue);
  }

  lemma ReadTwoWays(ns: string, s: string, l: string, m: string, k: string, v: string)
    ensures ns + s + (l + s + ((m + (s + l + s) + k) + s + v)) == (ns + (s + l + s) + m) + s + (l + s + (k + s + v))
  {
  }

  lemma PlainFieldsPrint(p: Parsed)
    requires p.ns != "" && p.labelKey != "" && p.labelValue != "" && '{' !in p.ns && '{' !in p.labelKey
    ensures Key(p.ns, p.labelKey, p.labelValue) == Layout(p)
  {
    PlaceholderFields();
    NoBrace(p.ns, KEY_FIELD);
    NoBrace(p.ns, VALUE_FIELD);
    NoBrace(p.labelKey, VALUE_FIELD);
    KeyIsLayout(p);
    PlacedFaithful(p);
  }

  // ---------- runs ----------

  ghost predicate PublishedRun(events: seq<Event>) {
    ScheduledRun(events) && forall i :: 0 <= i < |events| ==> PublisherWorks(events[i])
  }

  ghost predicate ExactThroughout(events: seq<Event>, i: nat)
    requires i <= |events|
  {
    forall j :: 0 <= j <= i ==> PublishedExact(Before(events, j))
  }

  ghost predicate UnsharedThroughout(events: seq<Event>, i: nat)
    requires i <= |events|
  {
    forall j :: 0 <= j < i ==> Unshared(Before(events, j), events[j])
  }

  lemma NotificationMoment(events: seq<Event>, i: nat)
    requires i < |events| && PublishedRun(events) && PublishedExact(Before(events, i))
    ensures PublishedExact(Before(events, i + 1)) <==> Unshared(Before(events, i), events[i])
  {
    BeforeStep(events, i);
    StepKeepsPublishedIff(Before(events, i), events[i]);
  }

  lemma ExactNext(events: seq<Event>, i: nat)
    requires i < |events|
    ensures ExactThroughout(events, i + 1) <==> ExactThroughout(events, i) && PublishedExact(Before(events, i + 1))
    ensures UnsharedThroughout(events, i + 1) <==>
            UnsharedThroughout(events, i) && Unshared(Before(events, i), events[i])
    ensures ExactThroughout(events, i) ==> PublishedExact(Before(events, i))
  {
  }

  /** Over any scheduled run the published keys are exact at every moment iff no deletion hits a shared key. */
  lemma {:induction false} NotificationLaw(events: seq<Event>, i: nat)
    requires i <= |events| && PublishedRun(events)
    ensures ExactThroughout(events, i) <==> UnsharedThroughout(events, i)
  {
    if i == 0 {
      assert Before(events, 0) == INITIAL;
    } else {
      NotificationLaw(events, i - 1);
      ExactNext(events, i - 1);
      if ExactThroughout(events, i - 1) {
        NotificationMoment(events, i - 1);
      }
    }
  }

  /** What is configured was configured with its own name and by one of the given endpoints. */
  lemma {:induction false} ConfiguredFrom(events: seq<Event>, i: nat)
    requires i <= |events|
    requires forall j :: 0 <= j < |events| && events[j].CreateEvent? ==> Clear(events[j].cfg)
    ensures forall n :: n in Before(events, i).configured ==>
              Before(events, i).configured[n].networkService == n && Clear(Before(events, i).configured[n])
  {
    if i == 0 {
      assert Before(events, 0) == INITIAL;
    } else {
      ConfiguredFrom(events, i - 1);
      BeforeStep(events, i - 1);
      ConfiguredStep(Before(events, i - 1), events[i - 1]);
    }
  }

  lemma ConfiguredStep(a: Agent, e: Event)
    ensures forall n :: n in Step(a, e).configured ==>
              || (n in a.configured && Step(a, e).configured[n] == a.configured[n])
              || (e.CreateEvent? && n == e.cfg.networkService && Step(a, e).configured[n] == e.cfg)
  {
  }

  /** The published keys tell the labels of the configured services, and nothing else. */
  ghost predicate PublishedTold(a: Agent) {
    forall k :: k in a.published <==>
      exists n :: n in a.configured && Told(k, a.configured[n], (_: nat) => true)
  }

  lemma ExactIsTold(a: Agent)
    requires PublishedExact(a) && forall n :: n in a.configured ==> Clear(a.configured[n])
    ensures PublishedTold(a)
  {
    forall k ensures k in a.published <==>
      exists n :: n in a.configured && Told(k, a.configured[n], (_: nat) => true)
    {
      forall n | n in a.configured
        ensures Offers(a, n, k) <==> Told(k, a.configured[n], (_: nat) => true)
      {
        NotificationsTold(a.configured[n], k);
      }
    }
  }

  /** No deletion of a clear endpoint withdraws the key of another. */
  lemma ClearRunIsUnshared(events: seq<Event>, j: nat)
    requires j < |events| && PublishedRun(events)
    requires forall i :: 0 <= i < |events| && events[i].CreateEvent? ==> Clear(events[i].cfg)
    ensures Unshared(Before(events, j), events[j])
  {
    var a, e := Before(events, j), events[j];
    ConfiguredFrom(events, j);
    assert Scheduled(a, e);
    if e.DeleteEvent? {
      forall n, k | Offers(a, n, k) && n != e.cfg.networkService ensures k !in Notifications(e.cfg) {
        KeysOfDifferentServices(a.configured[n], e.cfg);
      }
    }
  }

  /**
   For endpoints whose labels survive in keys, the published notifications are after every scheduled run exactly
   those of the services created and not yet deleted, even when the demultiplexer fails to delete an endpoint; and
   a key that is read back names such a service with one of its labels.
   */
  lemma PublishedAreConfigured(events: seq<Event>)
    requires PublishedRun(events)
    requires forall j :: 0 <= j < |events| && events[j].CreateEvent? ==> Clear(events[j].cfg)
    ensures PublishedExact(Run(events)) && PublishedTold(Run(events))
  {
    forall j | 0 <= j < |events| ensures Unshared(Before(events, j), events[j]) {
      ClearRunIsUnshared(events, j);
    }
    NotificationLaw(events, |events|);
    assert PublishedExact(Before(events, |events|));
    ConfiguredFrom(events, |events|);
    assert events[..|events|] == events;
    ExactIsTold(Run(events));
  }
}
