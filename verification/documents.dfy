/** A document to print on the laser cutter (document.py, web/Document.js):
    a title, the cuts (vector passes) and the rasters (engravings), in the
    order they were added, and the job settings the encoders ask for. The
    source's classes append to their lists in place; here adding returns the
    new document. The cut and raster types are parameters, since the two
    programs use different ones. */
module Documents {

  datatype Document<C, R> = Document(title: string, cuts: seq<C>, rasters: seq<R>)

  /** Pixels per inch: 600, the Fusion default. */
  const Resolution: nat := 600

  /** A new document has the title and nothing to print. */
  function NewDocument<C, R>(title: string): (d: Document<C, R>)
    ensures d.title == title && d.cuts == [] && d.rasters == []
    ensures !EnableCut(d) && !EnableEngraving(d)
  {
    Document(title, [], [])
  }

  /** `addCut`: the cut goes after the existing ones; nothing else changes. */
  function AddCut<C, R>(d: Document<C, R>, cut: C): (r: Document<C, R>)
    ensures r.cuts == d.cuts + [cut]
    ensures r.title == d.title && r.rasters == d.rasters
    ensures EnableCut(r) && EnableEngraving(r) == EnableEngraving(d)
  {
    d.(cuts := d.cuts + [cut])
  }

  /** `addRaster`: the raster goes after the existing ones; nothing else
      changes. */
  function AddRaster<C, R>(d: Document<C, R>, raster: R): (r: Document<C, R>)
    ensures r.rasters == d.rasters + [raster]
    ensures r.title == d.title && r.cuts == d.cuts
    ensures EnableEngraving(r) && EnableCut(r) == EnableCut(d)
  {
    d.(rasters := d.rasters + [raster])
  }

  /** Whether there are engravings (rasters). */
  predicate EnableEngraving<C, R>(d: Document<C, R>) {
    |d.rasters| > 0
  }

  /** Whether there are cuts (vectors). */
  predicate EnableCut<C, R>(d: Document<C, R>) {
    |d.cuts| > 0
  }

  /** Nothing is ever centred automatically. */
  const CenterEngrave: bool := false

  /** Air assist is always on. */
  const AirAssist: bool := true

  /** Autofocus is never wanted. */
  const AutoFocus: bool := false

  /** Bed width of document.py, in dots: 24 inches. */
  const Width: nat := 24 * Resolution

  /** Bed height of document.py, in dots: 18 inches. */
  const Height: nat := 18 * Resolution

  /** Bed width of web/Document.js, in inches. */
  const WebWidthInches: nat := 32

  /** Bed height of web/Document.js, in inches. */
  const WebHeightInches: nat := 20

  /** The cuts and the rasters are added independently: adding one of each,
      in either order, gives the same document. */
  lemma AddsCommute<C, R>(d: Document<C, R>, cut: C, raster: R)
    ensures AddRaster(AddCut(d, cut), raster) == AddCut(AddRaster(d, raster), cut)
  {
  }

  /** Adding cuts one by one keeps them in the order they were added. */
  lemma {:induction false} AddCutsInOrder<C, R>(d: Document<C, R>, cuts: seq<C>)
    ensures AddCuts(d, cuts).cuts == d.cuts + cuts
    ensures AddCuts(d, cuts).rasters == d.rasters && AddCuts(d, cuts).title == d.title
    decreases |cuts|
  {
    if cuts != [] {
      AddCutsInOrder(AddCut(d, cuts[0]), cuts[1..]);
      assert d.cuts + [cuts[0]] + cuts[1..] == d.cuts + cuts;
    }
  }

  /** Adds the cuts one after the other. */
  function AddCuts<C, R>(d: Document<C, R>, cuts: seq<C>): Document<C, R>
    decreases |cuts|
  {
    if cuts == [] then d else AddCuts(AddCut(d, cuts[0]), cuts[1..])
  }
}
