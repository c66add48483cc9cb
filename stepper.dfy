/** The two-step wizard state (app/composables/useStepper.ts). */
module StepperState {

  class Stepper {
    var currentStep: int

    /** The step is 0 or 1. */
    predicate Valid()
      reads this
    {
      0 <= currentStep <= 1
    }

    constructor()
      ensures currentStep == 0 && Valid()
    {
      currentStep := 0;
    }

    /** Moves from 0 to 1 and leaves 1 unchanged. */
    method NextStep()
      requires Valid()
      modifies this
      ensures currentStep == (if old(currentStep) < 1 then old(currentStep) + 1 else old(currentStep))
      ensures currentStep == 1 && Valid()
    {
      if currentStep < 1 {
        currentStep := currentStep + 1;
      }
    }

    /** `setCurrentStep(Math.max(0, currentStep - 1))` */
    method BackStep()
      requires Valid()
      modifies this
      ensures currentStep == (if old(currentStep) - 1 > 0 then old(currentStep) - 1 else 0)
      ensures currentStep == 0 && Valid()
    {
      currentStep := if currentStep - 1 > 0 then currentStep - 1 else 0;
    }

    /** Assigns only a step from 0 to 1; any other value changes nothing. */
    method SetStep(step: int)
      requires Valid()
      modifies this
      ensures 0 <= step <= 1 ==> currentStep == step
      ensures !(0 <= step <= 1) ==> currentStep == old(currentStep)
      ensures Valid()
    {
      if step >= 0 && step <= 1 {
        currentStep := step;
      }
    }
  }
}
