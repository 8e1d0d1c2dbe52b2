/**
 * The constants of the InitExample entity: the defaults a new record gets, the store's capacity,
 * the three priority levels and the length limits of its fields.
 */
module InitExampleDefaults {
  import opened Wrappers

  /** INIT_EXAMPLE_PRIORITIES. */
  datatype Priority = Low | Medium | High {
    function Name(): string {
      match this
      case Low => "low"
      case Medium => "medium"
      case High => "high"
    }
  }

  /** The priority a name denotes, as `z.enum(['low', 'medium', 'high'])` reads it. */
  function PriorityNamed(name: string): (p: Option<Priority>)
    ensures p.Some? ==> p.value.Name() == name
    ensures p.None? <==> name != "low" && name != "medium" && name != "high"
  {
    if name == "low" then Some(Low)
    else if name == "medium" then Some(Medium)
    else if name == "high" then Some(High)
    else None
  }

  /** INIT_EXAMPLE_DEFAULTS.ACTIVE. */
  const DefaultActive: bool := true
  /** INIT_EXAMPLE_DEFAULTS.PRIORITY. */
  const DefaultPriority: Priority := Medium
  /** INIT_EXAMPLE_DEFAULTS.MAX_RECORDS. */
  const MaxRecords: nat := 1000

  /** INIT_EXAMPLE_LIMITS. */
  const NameMinLength: nat := 1
  const NameMaxLength: nat := 200
  const DescriptionMaxLength: nat := 500
  const CategoryMinLength: nat := 1
  const CategoryMaxLength: nat := 100

  /** Every priority is named by exactly one of the three names, and names it alone. */
  lemma PriorityNames(p: Priority, q: Priority)
    ensures PriorityNamed(p.Name()) == Some(p)
    ensures p.Name() == q.Name() ==> p == q
  {
  }

  /** The default priority is the level named 'medium', and each minimum length is below its maximum. */
  lemma DefaultsConsistent()
    ensures PriorityNamed("medium") == Some(DefaultPriority)
    ensures DefaultActive
    ensures 0 < NameMinLength <= NameMaxLength && 0 < CategoryMinLength <= CategoryMaxLength
  {
  }
}
