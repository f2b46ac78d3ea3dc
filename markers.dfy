/**
 * The editor model's marker collection (`model.markers`) as the emoji and
 * smiley plugins use it: named ranges, here offsets inside the block that
 * holds the selection. The writer refuses to add a marker under a name that
 * is taken and to update or remove one that does not exist.
 */
module Markers {

  /** A range `[start, end)` of offsets in the block of the selection. */
  datatype MarkerRange = MarkerRange(start: nat, end: nat)

  class MarkerCollection {
    var ranges: map<string, MarkerRange>

    constructor ()
      ensures ranges == map[]
    {
      ranges := map[];
    }

    /** `markers.has(name)`. */
    predicate Has(name: string)
      reads this
    {
      name in ranges
    }

    /** `writer.addMarker(name, { range })`. */
    method Add(name: string, range: MarkerRange)
      requires name !in ranges
      modifies this
      ensures ranges == old(ranges)[name := range]
    {
      ranges := ranges[name := range];
    }

    /** `writer.updateMarker(marker, { range })`. */
    method Update(name: string, range: MarkerRange)
      requires name in ranges
      modifies this
      ensures ranges == old(ranges)[name := range]
    {
      ranges := ranges[name := range];
    }

    /** `writer.removeMarker(name)`. */
    method Remove(name: string)
      requires name in ranges
      modifies this
      ensures ranges == old(ranges) - {name}
    {
      ranges := ranges - {name};
    }

    /**
     * The plugins' create-or-update: the marker is updated when it exists
     * and added otherwise, so the writer never refuses, and afterwards the
     * name maps to `range` whichever branch ran.
     */
    method Put(name: string, range: MarkerRange)
      modifies this
      ensures ranges == old(ranges)[name := range]
    {
      if Has(name) {
        Update(name, range);
      } else {
        Add(name, range);
      }
    }

    /** The plugins' guarded removal: the marker is removed only when it exists. */
    method RemoveIfPresent(name: string)
      modifies this
      ensures ranges == old(ranges) - {name}
      ensures name !in old(ranges) ==> ranges == old(ranges)
    {
      if Has(name) {
        Remove(name);
      }
    }
  }
}
