/**
 * Functional options of the task pool and of tasks (pkg/taskpool/options.go).
 *
 * Each `WithX(v)` of the source returns a closure that assigns one field.
 * Here the closure is a constructor of PoolOption / TaskOption and applying it
 * is the method Apply of the configured object. Durations are nanosecond
 * counts. Options that install callbacks or a custom strategy are not part of
 * this model.
 */
module TaskOptions {

  /** The option closures that set plain fields of a TaskPool. */
  datatype PoolOption =
    | WithQueueSize(size: int)
    | WithMinWorkers(n: int)
    | WithMaxWorkers(n: int)
    | WithPriorityQueue(enable: bool)
    | WithAutoScale(enable: bool)
    | WithScaleInterval(interval: int)
    | WithStarvationPrevention(n: int)
    | WithDefaultTimeout(timeout: int)

  /** The option closures that configure a Task. */
  datatype TaskOption =
    | WithTaskID(id: string)
    | WithPriority(p: int)
    | WithTimeout(d: int)

  /** The priority WithPriority stores: p clamped into [0, 100]. */
  function ClampPriority(p: int): (r: int)
    ensures 0 <= r <= 100
    ensures 0 <= p <= 100 ==> r == p
    ensures p < 0 ==> r == 0
    ensures p > 100 ==> r == 100
  {
    if p < 0 then 0 else if p > 100 then 100 else p
  }

  /** The configurable fields of a TaskPool. */
  class PoolConfig {
    var queueSize: int
    var minWorkers: int
    var maxWorkers: int
    var enablePriority: bool
    var autoScale: bool
    var scaleInterval: int
    var starvationN: int
    var defaultTimeout: int

    /** The defaults New installs before applying any option. */
    constructor ()
      ensures queueSize == 1000 && minWorkers == 5 && maxWorkers == 50
      ensures !enablePriority && !autoScale
      ensures scaleInterval == 5_000_000_000 && starvationN == 10 && defaultTimeout == 0
    {
      queueSize := 1000;
      minWorkers := 5;
      maxWorkers := 50;
      enablePriority := false;
      autoScale := false;
      scaleInterval := 5_000_000_000;
      starvationN := 10;
      defaultTimeout := 0;
    }

    /** Runs the closure of `opt`: exactly one field changes. */
    method Apply(opt: PoolOption)
      modifies this
      ensures opt.WithQueueSize? ==> queueSize == opt.size
      ensures !opt.WithQueueSize? ==> queueSize == old(queueSize)
      ensures opt.WithMinWorkers? ==> minWorkers == opt.n
      ensures !opt.WithMinWorkers? ==> minWorkers == old(minWorkers)
      ensures opt.WithMaxWorkers? ==> maxWorkers == opt.n
      ensures !opt.WithMaxWorkers? ==> maxWorkers == old(maxWorkers)
      ensures opt.WithPriorityQueue? ==> enablePriority == opt.enable
      ensures !opt.WithPriorityQueue? ==> enablePriority == old(enablePriority)
      ensures opt.WithAutoScale? ==> autoScale == opt.enable
      ensures !opt.WithAutoScale? ==> autoScale == old(autoScale)
      ensures opt.WithScaleInterval? ==> scaleInterval == opt.interval
      ensures !opt.WithScaleInterval? ==> scaleInterval == old(scaleInterval)
      ensures opt.WithStarvationPrevention? ==> starvationN == opt.n
      ensures !opt.WithStarvationPrevention? ==> starvationN == old(starvationN)
      ensures opt.WithDefaultTimeout? ==> defaultTimeout == opt.timeout
      ensures !opt.WithDefaultTimeout? ==> defaultTimeout == old(defaultTimeout)
    {
      match opt
      case WithQueueSize(size) => queueSize := size;
      case WithMinWorkers(n) => minWorkers := n;
      case WithMaxWorkers(n) => maxWorkers := n;
      case WithPriorityQueue(enable) => enablePriority := enable;
      case WithAutoScale(enable) => autoScale := enable;
      case WithScaleInterval(interval) => scaleInterval := interval;
      case WithStarvationPrevention(n) => starvationN := n;
      case WithDefaultTimeout(timeout) => defaultTimeout := timeout;
    }
  }

  /** The configurable fields of a Task. */
  class Task {
    var id: string
    var priority: int
    var timeout: int

    /** newTask before its options: the generated id, priority 0, no timeout. */
    constructor (generatedId: string)
      ensures id == generatedId && priority == 0 && timeout == 0
    {
      id := generatedId;
      priority := 0;
      timeout := 0;
    }

    /** Runs the closure of `opt`: exactly one field changes; a priority is clamped into [0, 100]. */
    method Apply(opt: TaskOption)
      modifies this
      ensures opt.WithTaskID? ==> id == opt.id
      ensures !opt.WithTaskID? ==> id == old(id)
      ensures opt.WithPriority? ==> priority == ClampPriority(opt.p)
      ensures !opt.WithPriority? ==> priority == old(priority)
      ensures opt.WithTimeout? ==> timeout == opt.d
      ensures !opt.WithTimeout? ==> timeout == old(timeout)
    {
      match opt
      case WithTaskID(x) => id := x;
      case WithPriority(p) => priority := ClampPriority(p);
      case WithTimeout(d) => timeout := d;
    }
  }

  /** The option loop of newTask: after any sequence of options the priority lies in [0, 100]
      (it starts at 0), and without WithTaskID the generated id survives. */
  method ApplyAll(t: Task, opts: seq<TaskOption>)
    requires 0 <= t.priority <= 100
    modifies t
    ensures 0 <= t.priority <= 100
    ensures (forall k :: 0 <= k < |opts| ==> !opts[k].WithTaskID?) ==> t.id == old(t.id)
  {
    var i := 0;
    while i < |opts|
      invariant 0 <= i <= |opts|
      invariant 0 <= t.priority <= 100
      invariant (forall k :: 0 <= k < i ==> !opts[k].WithTaskID?) ==> t.id == old(t.id)
    {
      t.Apply(opts[i]);
      i := i + 1;
    }
  }
}
