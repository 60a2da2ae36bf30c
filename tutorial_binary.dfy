/** The state of the tutorial's binary section and the three places that touch it:
    the initial state, the refresh run each time the window is shown, and the guard
    on the install button. */
module TutorialBinary {
  import opened BinaryStatus

  /** The component's `state` record. */
  datatype ComponentState = ComponentState(
    binaryInstalled: bool,
    installing: bool,
    done: bool,
    downloading: bool,
    progress: int)

  /** `initialState`: nothing installed, no install running, no progress. */
  const InitialState := ComponentState(false, false, false, false, 0)

  /** What `componentDidMount` does to the state: it only ever sets `binaryInstalled`,
      and only when the evaluation says installed. */
  function MountStep(s: ComponentState, installedNow: bool): (r: ComponentState)
    ensures r.binaryInstalled == (s.binaryInstalled || installedNow)
    ensures r.(binaryInstalled := s.binaryInstalled) == s
  {
    if installedNow then s.(binaryInstalled := true) else s
  }

  /** The window "show" refresh: ignored while an install runs; otherwise every field
      goes back to its initial value except `binaryInstalled`, which takes the fresh
      verdict. */
  function ShowStep(s: ComponentState, installedNow: bool): (r: ComponentState)
    ensures s.installing ==> r == s
    ensures !s.installing ==>
      r.binaryInstalled == installedNow && !r.installing && !r.done &&
      !r.downloading && r.progress == 0
  {
    if s.installing then s else InitialState.(binaryInstalled := installedNow)
  }

  /** The install button's `onClick` guard: an install is started exactly when the
      state does not already say installed. */
  function ClickTriggersInstall(s: ComponentState): (r: bool)
    ensures r <==> !s.binaryInstalled
  {
    !s.binaryInstalled
  }

  /** A refresh discards everything that was displayed before (a finished install,
      stale progress): two idle states refresh to the same state. */
  lemma ShowForgetsPriorState(s: ComponentState, t: ComponentState, installedNow: bool)
    requires !s.installing && !t.installing
    ensures ShowStep(s, installedNow) == ShowStep(t, installedNow)
  {
  }

  /** Showing the window twice with the same verdict is the same as showing it once. */
  lemma ShowIdempotent(s: ComponentState, installedNow: bool)
    ensures ShowStep(ShowStep(s, installedNow), installedNow) == ShowStep(s, installedNow)
  {
  }

  /** After a refresh, the button offers an install exactly when the fresh evaluation
      says the binary is not installed. */
  lemma ShowThenClick(s: ComponentState, f: Facts)
    requires !s.installing
    ensures ClickTriggersInstall(ShowStep(s, BinaryInstalled(f))) <==> !BinaryInstalled(f)
  {
  }

  /** The React component `Binary`, reduced to its state fields. */
  class Binary {
    var binaryInstalled: bool
    var installing: bool
    var done: bool
    var downloading: bool
    var progress: int

    function State(): (r: ComponentState)
      reads this
    {
      ComponentState(binaryInstalled, installing, done, downloading, progress)
    }

    /** The constructor starts from `initialState`. */
    constructor ()
      ensures State() == InitialState
    {
      binaryInstalled, installing, done, downloading, progress := false, false, false, false, 0;
    }

    /** `componentDidMount`, with the evaluation's facts as input. */
    method ComponentDidMount(f: Facts)
      modifies this
      ensures State() == MountStep(old(State()), BinaryInstalled(f))
    {
      if BinaryInstalled(f) {
        binaryInstalled := true;
      }
    }

    /** The window "show" handler, with the fresh evaluation's facts as input. */
    method OnShow(f: Facts)
      modifies this
      ensures State() == ShowStep(old(State()), BinaryInstalled(f))
      ensures old(installing) ==> unchanged(this)
    {
      if installing {
        return;
      }
      var original := InitialState.(binaryInstalled := BinaryInstalled(f));
      binaryInstalled, installing, done, downloading, progress :=
        original.binaryInstalled, original.installing, original.done,
        original.downloading, original.progress;
    }

    /** The install button's click: returns whether `installBinary` would be called. */
    method Click() returns (triggers: bool)
      ensures triggers == ClickTriggersInstall(State())
    {
      if binaryInstalled {
        return false;
      }
      triggers := true;
    }
  }

  /** A client: the user deleted the binary while the window was hidden, so the next
      show offers the install again. */
  method ShowAfterBinaryDeleted(registry: seq<Package>)
    requires forall j :: 0 <= j < |registry| ==> registry[j].name != CliName
  {
    var section := new Binary();
    var installedFile := Facts(Packages(registry), true, false, LookupEmpty, SpawnFailed);
    section.ComponentDidMount(installedFile);
    var offered := section.Click();
    assert !offered;
    var deleted := installedFile.(pathExists := false);
    section.OnShow(deleted);
    offered := section.Click();
    assert offered;
  }
}
