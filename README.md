# Fur pattern cells: a verified model

This project models the cell grid at the heart of the fur pattern generator.
The grid is a cellular automaton after David Young's activator-inhibitor
method. Each cell is either developed (COLOR_D) or undeveloped (COLOR_U).
One generation (`develop`) runs in two passes:

1. For every cell, count the developed cells within the activator radius RA
   (AD). Count those within the inhibitor radius RI and subtract AD to get
   the ring count ID. Store the discriminator AD - w * ID. All
   discriminators are computed from the same, unchanged colour raster.
2. Set every cell with a positive discriminator to COLOR_D and every cell
   with a negative one to COLOR_U. A cell with a zero discriminator keeps its
   colour.

RA >= RI is refused before anything is touched.

The project has four modules:

- `Colors`: RGBA colours and the channel-wise test for COLOR_D.
- `Neighborhood`: a neighbourhood strategy enumerates grid positions around a
  centre. `Confined` is the one property the engine relies on: every position
  returned lies on the grid. `VonNeumann` is a concrete diamond-metric
  strategy, and the lemmas about it hold for that instance.
- `Automaton`: the automaton as functions on grid values. `CountAt` is the
  count, `Discriminator` and `DiscField` cover pass 1, and `Threshold` and
  `NextGrid` cover pass 2. This module also holds the lemmas about them.
- `Cells`: the class `Cells`. Its fields are a colour raster, a
  discriminator array and a visited mask, each an `array2` indexed
  `[y, x]`. Its methods update these arrays in place with the source's
  nested loops. Each method is proved against the `Automaton` functions,
  through the ghost views `Pixels()`, `Discs()` and `Visits()`.

## Model

| member | source | states |
|---|---|---|
| Colors.IsDeveloped | fpg/generator/cells.py:146-151 | the four-channel comparison holds exactly when the colour equals COLOR_D |
| Neighborhood.VonNeumann | fpg/generator/cells.py:25 | the default diamond strategy; its region contains the centre exactly when the centre is on the grid and the radius is not negative |
| Neighborhood.VonNeumannMembers | fpg/generator/cells.py:25 | a position is in the diamond neighbourhood exactly when it is on the grid and within taxicab distance r of the centre |
| Neighborhood.VonNeumannConfined | fpg/generator/cells.py:140 | the diamond strategy returns only on-grid positions, which is the contract the engine needs |
| Neighborhood.VonNeumannNoDuplicates | fpg/generator/cells.py:140 | the diamond neighbourhood lists no position twice |
| Neighborhood.VonNeumannRadiusZero | fpg/generator/cells.py:140 | radius 0 yields exactly the centre when it is on the grid, and nothing otherwise |
| Neighborhood.VonNeumannMonotone | fpg/generator/cells.py:126-127 | the RA neighbourhood is contained in the RI neighbourhood when RA <= RI |
| Automaton.RegionOnGrid | fpg/generator/cells.py:140-145 | under a confined strategy, every region position can be looked up in a grid of the right size |
| Automaton.CountDeveloped | fpg/generator/cells.py:142-153 | the count of COLOR_D entries in a region lies between 0 and the region's length |
| Automaton.CountAt | fpg/generator/cells.py:137-154 | the count for a centre and radius is at most the length of the strategy's region |
| Automaton.CountZeroIff | fpg/generator/cells.py:142-154 | the count is 0 exactly when no region entry is COLOR_D |
| Automaton.CountFullIff | fpg/generator/cells.py:142-154 | the count equals the region's length exactly when every entry is COLOR_D |
| Automaton.CountLocal | fpg/generator/cells.py:142-154 | two grids that agree on the region's positions give the same count |
| Automaton.CountDistinct | fpg/generator/cells.py:142-154 | over a duplicate-free region, the count is the number of distinct COLOR_D positions in it |
| Automaton.DevelopedInSnoc | fpg/generator/cells.py:152-153 | appending a new position adds it to the COLOR_D set exactly when its colour is COLOR_D |
| Automaton.CountMonotone | fpg/generator/cells.py:126-127 | a duplicate-free region inside another holds no more COLOR_D cells |
| Automaton.VonNeumannRingNonNegative | fpg/generator/cells.py:126-127 | with the diamond strategy and RA <= RI, the ring count ID = count(RI) - AD is never negative |
| Automaton.Discriminator | fpg/generator/cells.py:126-131 | AD - w * ID with AD = count(RA) and ID = count(RI) - AD; with an empty ring or weight 0 it equals the activator count |
| Automaton.DiscField | fpg/generator/cells.py:122-135 | pass 1 gives one discriminator per cell, on a grid of the same width and height |
| Automaton.DiscriminatorLocal | fpg/generator/cells.py:129-131 | a cell's discriminator depends only on the snapshot's colours inside its two neighbourhoods (synchronous update) |
| Automaton.AgreeOnRegion | fpg/generator/cells.py:137-154 | grids that agree on a region's positions give the same count for that region |
| Automaton.Threshold | fpg/generator/cells.py:115-118 | a positive discriminator gives COLOR_D, a negative one COLOR_U, and zero keeps the cell's colour |
| Automaton.NextGrid | fpg/generator/cells.py:111-118 | pass 2 keeps the grid's shape |
| Automaton.ThresholdRule | fpg/generator/cells.py:111-118 | a cell is COLOR_D after pass 2 exactly when its discriminator is positive, or zero and it was COLOR_D; likewise COLOR_U with a negative discriminator; a zero discriminator keeps the old colour |
| Automaton.NoneDevelopedIsFixpoint | fpg/generator/cells.py:86-135 | on a grid with no COLOR_D cell, every discriminator is 0 and a generation leaves the grid unchanged |
| Automaton.VonNeumannCountSeed | fpg/generator/cells.py:137-154 | with one COLOR_D cell, the diamond count is 1 when the seed is within the radius and 0 otherwise |
| Automaton.VonNeumannSeedDiscriminator | fpg/generator/cells.py:126-131 | with one COLOR_D seed, the discriminator is 1 within RA, -w in the ring up to RI, and 0 beyond |
| Automaton.SeedCell | fpg/generator/cells.py:86-135 | with one COLOR_D seed, 0 <= RA < RI and w >= 0, a cell is COLOR_D after one generation exactly when it is within RA of the seed |
| Automaton.SeedGeneration | fpg/generator/cells.py:86-135 | the same for every cell of the grid at once |
| Automaton.CentreSeed | fpg/generator/cells.py:86-120 | the 5 x 5 sample grid has COLOR_D only at its centre |
| Automaton.CentreSeedScenario | fpg/generator/cells.py:86-135 | one generation with RA=1, RI=2, w=0.5 from the centre seed makes exactly the centre and its four direct neighbours COLOR_D |
| Automaton.CentreDiamond | fpg/generator/cells.py:126 | the cells of the 5 x 5 grid within distance 1 of the centre are the centre and its four direct neighbours |
| Cells.Cells.constructor | fpg/generator/cells.py:23-31 | a fresh raster of the given size and fill; every discriminator is 0 and no cell is visited; the strategy is stored |
| Cells.Cells.GetColor | fpg/generator/cells.py:145 | returns the colour at (x, y) |
| Cells.Cells.SetColor | fpg/generator/cells.py:116-118 | writes the colour at (x, y) and changes no other cell |
| Cells.Cells.GetDisc | fpg/generator/cells.py:43-44 | returns the discriminator stored at (x, y) |
| Cells.Cells.SetDisc | fpg/generator/cells.py:46-47 | stores d at (x, y), so a following GetDisc(x, y) returns d; no other entry changes |
| Cells.Cells.GetVisited | fpg/generator/cells.py:51-52 | returns the mask entry at (x, y) |
| Cells.Cells.SetVisited | fpg/generator/cells.py:54-55 | marks (x, y) visited and changes no other entry |
| Cells.Cells.ResetVisited | fpg/generator/cells.py:57-58 | replaces the mask by a fresh one in which no cell is visited |
| Cells.Cells.CountDCells | fpg/generator/cells.py:137-154 | the loop's count equals the number of COLOR_D entries in the strategy's region, and is at most the region's length |
| Cells.Cells.CellDisc | fpg/generator/cells.py:125-131 | returns AD - w * ID for the cell, from the current raster |
| Cells.Cells.UpdateDiscs | fpg/generator/cells.py:122-135 | afterwards, the discriminator array is pass 1's field of the raster as it stood; the raster is not written |
| Cells.Cells.UpdateDiscRow | fpg/generator/cells.py:124-135 | every discriminator of row y is computed from the given snapshot; other rows are unchanged |
| Cells.Cells.Develop | fpg/generator/cells.py:86-120 | RA >= RI reports InvalidRadius and leaves raster and discriminators untouched; otherwise the discriminators equal pass 1's field of the pre-step raster, and the raster is pass 2 applied to that raster |
| Cells.Cells.ApplyDiscRow | fpg/generator/cells.py:112-118 | each cell of row y is thresholded by its own discriminator; other rows are unchanged |

## Left out

- Console output is not modelled: the progress messages of `develop`, `show_cells`, `print_visits` and `print_discs` (fpg/generator/cells.py:62-82, 106, 110, 120).
- Discriminators are stored as `float32` in the source and as exact `real` here, so rounding is not modelled.
- The weight `w` is modelled as a finite real.
  - The source's Python float can be an infinity or NaN. For example, w = inf with ID = 0 gives NaN at fpg/generator/cells.py:131.
  - Neither branch at fpg/generator/cells.py:115-118 fires on NaN, so that cell keeps its colour. The model gives disc = AD instead.
- The visited mask is `uint8` in the source and `bool` here.
- The raising `ValueError` of `develop` is modelled as the returned `Outcome.InvalidRadius`.
- The image base class (`image.py`) and the colour constants (`colors.py`) are not part of this model.
  - `width`, `height`, `get_color` and `set_color` are modelled directly on the raster array.
  - COLOR_D and COLOR_U are stand-in values. The proofs only use the fact that they differ.
  - The constructor takes the width, height and fill colour that the base class would supply.
- `neighborhood.py` is not part of this model. The engine takes any strategy, as a function of grid size, centre and radius.
  - Cells.Cells.constructor: requires the strategy to be `Confined` (only on-grid positions). The source states no such demand. An off-grid position there would index with numpy wrap-around or raise an error.
  - `VonNeumann` is a reference diamond strategy. It shows that `Confined` can be met. Its enumeration order is not taken from the source.
- The source's strategy receives the whole `Cells` object. Here it receives only the grid's width and height.
- The accessors require in-bounds coordinates. Numpy's negative-index wrap-around and its `IndexError` are not modelled.
- The discriminator array (fpg/generator/cells.py:30) and the visited mask (fpg/generator/cells.py:58) are both allocated with the image's shape in the source. The model assumes one value per cell for both.
  - If the base-class raster has a channel axis, `get_disc` returns four values. The comparison at fpg/generator/cells.py:115 would then raise instead of thresholding.
  - `show_cells` hands the raster to PIL as "RGBA" (fpg/generator/cells.py:63), which hints at such an axis. This behaviour is not modelled.
- The visited mask is not created by the shown constructor. The model's constructor creates it all-false, as `reset_visited` would.
- `develop` returns nothing in the source. The model returns the outcome instead.
- `update_discs` is annotated as returning `int` but returns nothing. The model returns nothing.
- `fur_pattern_generator/addon/__init__.py` is host-application glue and is not modelled.
