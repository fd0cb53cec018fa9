/**
 * The step catalog: the fixed, ordered list of steps every job runs through.
 * Ids are 1..N in list order; the titles are carried along as data.
 */
module StepCatalog {

  /** The state one step of one job is in. */
  datatype StepState = Pending | Active | Done | Error

  /** One entry of the catalog. */
  datatype StepDef = StepDef(id: int, title: string)

  const Catalog: seq<StepDef> := [
    StepDef(1, "Validating input"),
    StepDef(2, "Launching browser"),
    StepDef(3, "Opening login page"),
    StepDef(4, "Logging in"),
    StepDef(5, "Opening Analytics"),
    StepDef(6, "Opening Reports"),
    StepDef(7, "Selecting Physician Productivity Report"),
    StepDef(8, "Selecting Radiologist Report"),
    StepDef(9, "Setting date parameters"),
    StepDef(10, "Setting radiologist = Current User"),
    StepDef(11, "Creating report"),
    StepDef(12, "Waiting for generated report link"),
    StepDef(13, "Downloading .xls"),
    StepDef(14, "Saving file"),
    StepDef(15, "Done")
  ]

  /** The canonical step count. */
  const N: nat := |Catalog|

  /** Ids run 1..|defs| without gaps, in list order. */
  ghost predicate NumberedFromOne(defs: seq<StepDef>) {
    forall i :: 0 <= i < |defs| ==> defs[i].id == i + 1
  }

  lemma CatalogShape()
    ensures N == 15
    ensures NumberedFromOne(Catalog)
  {
  }
}
