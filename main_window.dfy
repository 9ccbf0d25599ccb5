/** The Execute/Cancel logic of the application main window. The Qt widgets
    it drives become plain fields (status-bar text, button text and enabled
    flag) and the signals it emits, together with the call into the view
    before execution, become an appended event log. */
module MainWindow {

  datatype Event =
    | BeforeExecuteButtonClicked   // gui->BeforeExecuteButtonClicked()
    | ExecuteAndWriteOutput        // emit ExecuteAndWriteOutput()
    | Stop                         // emit Stop()

  const SelectParameters := "Select parameters"
  const ReadyToRun := "Ready to run"
  const Done := "Done"
  const Failed := "Failed!"
  const Running := "Running..."
  const Cancelling := "Cancelling..."
  const ExecuteLabel := "Execute"
  const CancelLabel := "Cancel"

  class QtMainWindow {
    var isRunning: bool
    var status: string
    var buttonText: string
    var buttonEnabled: bool
    var events: seq<Event>

    /** The button label says what a click will do. */
    ghost predicate Valid()
      reads this
    {
      buttonText == if isRunning then CancelLabel else ExecuteLabel
    }

    constructor ()
      ensures Valid()
      ensures !isRunning && !buttonEnabled && buttonText == ExecuteLabel
      ensures status == SelectParameters && events == []
    {
      isRunning := false;
      buttonEnabled := false;
      buttonText := ExecuteLabel;
      status := SelectParameters;
      events := [];
    }

    /** The model's SetApplicationReady(val) signal: it reaches the button's
        setEnabled first, then UpdateMessageAfterApplicationReady. */
    method OnApplicationReady(val: bool)
      requires Valid()
      modifies this
      ensures Valid()
      ensures buttonEnabled == val
      ensures status == if old(isRunning) then old(status) else if val then ReadyToRun else SelectParameters
      ensures isRunning == old(isRunning) && buttonText == old(buttonText) && events == old(events)
    {
      buttonEnabled := val;
      UpdateMessageAfterApplicationReady(val);
    }

    /** While idle, the status tells whether the parameters are complete;
        while running it is left alone. */
    method UpdateMessageAfterApplicationReady(val: bool)
      requires Valid()
      modifies this
      ensures Valid()
      ensures status == if old(isRunning) then old(status) else if val then ReadyToRun else SelectParameters
      ensures isRunning == old(isRunning) && buttonText == old(buttonText)
      ensures buttonEnabled == old(buttonEnabled) && events == old(events)
    {
      if !isRunning {
        if val {
          status := ReadyToRun;
        } else {
          status := SelectParameters;
        }
      }
    }

    /** The end of an execution, successful when status >= 0: the window is
        idle again and the button offers Execute. */
    method UpdateMessageAfterExecution(exitStatus: int)
      requires Valid()
      modifies this
      ensures Valid()
      ensures status == if exitStatus >= 0 then Done else Failed
      ensures buttonText == ExecuteLabel && !isRunning
      ensures buttonEnabled == old(buttonEnabled) && events == old(events)
    {
      if exitStatus >= 0 {
        status := Done;
      } else {
        status := Failed;
      }
      buttonText := ExecuteLabel;
      isRunning := false;
    }

    /** on_executeButton_clicked: a click while running asks to stop; a click
        while idle prepares the view, starts and asks to execute. Either way
        exactly one of Stop and ExecuteAndWriteOutput is emitted. */
    method ExecuteButtonClicked()
      requires Valid()
      modifies this
      ensures Valid()
      ensures old(isRunning) ==>
                isRunning && status == Cancelling && buttonText == old(buttonText)
                && events == old(events) + [Stop]
      ensures !old(isRunning) ==>
                isRunning && status == Running && buttonText == CancelLabel
                && events == old(events) + [BeforeExecuteButtonClicked, ExecuteAndWriteOutput]
      ensures buttonEnabled == old(buttonEnabled)
      ensures |events| > |old(events)|
      ensures events[|events| - 1] == if old(isRunning) then Stop else ExecuteAndWriteOutput
      ensures forall k :: |old(events)| <= k < |events| - 1 ==> events[k] == BeforeExecuteButtonClicked
    {
      if isRunning {
        status := Cancelling;
        events := events + [Stop];
      } else {
        events := events + [BeforeExecuteButtonClicked];
        isRunning := true;
        status := Running;
        buttonText := CancelLabel;
        events := events + [ExecuteAndWriteOutput];
      }
    }

    /** A click on the button. Qt delivers clicked() only from an enabled
        button, so the handler runs only while the button is enabled, and a
        click changes nothing but what the handler changes. */
    method Click()
      requires Valid() && buttonEnabled
      modifies this
      ensures Valid()
      ensures old(isRunning) ==>
                isRunning && status == Cancelling && buttonText == old(buttonText)
                && events == old(events) + [Stop]
      ensures !old(isRunning) ==>
                isRunning && status == Running && buttonText == CancelLabel
                && events == old(events) + [BeforeExecuteButtonClicked, ExecuteAndWriteOutput]
      ensures buttonEnabled
    {
      ExecuteButtonClicked();
    }
  }

  /** A run: ready, execute, cancel, the application turning not-ready
      while the run winds down, then the end of execution with an error.
      Each click goes through the enabled button. The window ends idle,
      showing "Failed!", with exactly the three emitted events. */
  method CancelledRun() returns (w: QtMainWindow)
    ensures !w.isRunning && w.status == Failed && w.buttonText == ExecuteLabel && !w.buttonEnabled
    ensures w.events == [BeforeExecuteButtonClicked, ExecuteAndWriteOutput, Stop]
  {
    w := new QtMainWindow();
    w.OnApplicationReady(true);
    assert w.status == ReadyToRun && w.buttonEnabled;
    w.Click();
    assert w.isRunning && w.buttonText == CancelLabel && w.buttonEnabled;
    w.Click();
    assert w.status == Cancelling && w.events == [BeforeExecuteButtonClicked, ExecuteAndWriteOutput, Stop];
    w.OnApplicationReady(false);
    assert w.status == Cancelling && !w.buttonEnabled;
    w.UpdateMessageAfterExecution(-1);
    assert !w.isRunning && w.status == Failed && w.buttonText == ExecuteLabel;
  }
}
