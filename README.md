# OTB core pieces in Dafny

This project models four small, sequential parts of the Orfeo ToolBox (OTB) and proves properties of them.

- **The tile cache of `NonOptGlImageActor`** (module `TileCache`, `tile_cache.dfy`). This is the fallback GL image actor of the Ice viewer.
  - It keeps a vector of tiles. Each tile is a piece of the image's largest region at one resolution factor, uploaded as a GL texture together with a copy of the display settings.
  - The model is a class. Its fields are the tile size, the largest region, the resolution levels, the display settings and the tile list. GL texture names become integers handed out by a counter, and the names given back are recorded in a log.
  - `LoadTile`, `UnloadTile`, `TileAlreadyLoaded`, `CleanLoadedTiles`, `ClearLoadedTiles`, `UpdateResolution` and `UpdateData` are methods. So are the settings setters.
  - `UpdateData` picks the resolution, cleans, and walks the tile grid over the request. Afterwards every requested pixel of the image lies in a held tile and every held tile overlaps the request, and a second call with the same request changes nothing.
  - They keep one invariant, `WellKept`:
    - every held tile is loaded, with a texture name already handed out;
    - every held tile covers a cut of the image no larger than a grid cell;
    - no two held tiles share a region and a resolution, or share a texture;
    - no held tile owns a texture that was given back.
- **The example pixel functors of the functor-filter test** (module `Functors`, `functors.dfy`): `VariadicAdd`, `toVector`, both `concatenateVectors` overloads, `VariadicConcatenate` and its `OutputSize`, `BandExtraction`, `Mean`, `MaxInEachChannel`, and the neighbourhood-to-vector lambda `Lambda2`.
  - The loops of the C++ become Dafny methods with loop invariants, proved against the functions `Sum`, `Flatten` and `Ascending`.
  - Pixel values are doubles in the source and reals in the model.
- **The parameter record of `LibSVMMachineLearningModel`** (module `SvmModel`, `svm.dfy`). This is a class holding the `svm_parameter` record, the parameter-optimisation flag and ITK's modification time.
  - Each setter states its whole new state, including whether `Modified()` fires.
- **The Execute/Cancel logic of the application main window `QtMainWindow`** (module `MainWindow`, `main_window.dfy`).
  - The widgets become fields: the status text, the button text and the enabled flag.
  - The signals it emits become an event log.
- **`Numeric`** (`numeric.dfy`) holds `static_cast<int>` of a double, which truncates toward zero.

## Model

| member | source | states |
|---|---|---|
| TileCache.NewTile | Modules/Visualization/Ice/include/otbNonOptGlImageActor.h:100-124 | A new tile is unloaded with texture 0 and resolution 1, channels 1/2/3, shader off, every min/max 0, all corners at the origin; loaded flag and texture agree |
| TileCache.Crop | Modules/Visualization/Ice/include/otbNonOptGlImageActor.h:128 | `ImageRegion::Crop` on the image region (the actor crops requests and grid cells to it): cropping a region to bounds fails exactly when they do not overlap; the crop lies inside both and is the region itself when it already lies inside the bounds |
| TileCache.CutTile | Modules/Visualization/Ice/include/otbNonOptGlImageActor.h:128 | A grid cell cropped with `ImageRegion::Crop` to the largest region lies inside it, inside the cell, and is at most the tile size on each axis; there is no cut exactly when the cell misses the image |
| TileCache.TextureIds | Modules/Visualization/Ice/include/otbNonOptGlImageActor.h:127 | The texture names of a tile list, one per tile, in order |
| TileCache.KeptFacts | Modules/Visualization/Ice/include/otbNonOptGlImageActor.h:159-160 | Every tile cleaning keeps is an old tile still needed (overlapping the request at the current resolution), every old tile still needed is kept, and no two kept tiles share a key if no two old ones did |
| TileCache.DroppedFacts | Modules/Visualization/Ice/include/otbNonOptGlImageActor.h:159-160 | What cleaning drops is exactly the old tiles no longer needed; kept plus dropped account for every old tile |
| TileCache.CleanStaysWellKept | Modules/Visualization/Ice/include/otbNonOptGlImageActor.h:153-160 | Keeping the needed tiles and giving back the textures of the others preserves the tile-list invariant |
| TileCache.AppendStaysWellKept | Modules/Visualization/Ice/include/otbNonOptGlImageActor.h:153-166 | A freshly loaded tile whose key is not held yet joins the list without breaking the invariant |
| TileCache.ClosestResolution | Modules/Visualization/Ice/include/otbNonOptGlImageActor.h:174 | Returns the position in the resolution list whose factor is nearest the wanted one, the first such on a tie |
| TileCache.FirstClosestUnique | Modules/Visualization/Ice/include/otbNonOptGlImageActor.h:174 | At most one position is nearest and first on a tie, so the choice of resolution depends only on the list and the wanted factor |
| TileCache.ClosestMonotone | Modules/Visualization/Ice/include/otbNonOptGlImageActor.h:174 | A larger wanted factor never picks a smaller available factor: the nearest level is monotone in the target |
| TileCache.PixelInWalkedCell | Modules/Visualization/Ice/include/otbNonOptGlImageActor.h:44-45 | Every requested pixel of the image lies in a grid cell of the walk, and that cell's cut contains it |
| TileCache.CoveredGrows | Modules/Visualization/Ice/include/otbNonOptGlImageActor.h:186 | Appending tiles never uncovers a grid cell |
| TileCache.ColStep | Modules/Visualization/Ice/include/otbNonOptGlImageActor.h:44-45 | One step of the walk along a row: the cells already walked stay held, and every tile appended so far overlaps the view, carries the settings in force and is the cut of one of that row's cells |
| TileCache.RowStep | Modules/Visualization/Ice/include/otbNonOptGlImageActor.h:44-45 | One row of the walk: the rows already walked stay held, and every tile appended so far overlaps the view, carries the settings in force and is the cut of a walked cell |
| TileCache.OverlapsWider | Modules/Visualization/Ice/include/otbNonOptGlImageActor.h:44-45 | A tile overlapping a part of the request overlaps the request |
| TileCache.CropContains | Modules/Visualization/Ice/include/otbNonOptGlImageActor.h:44-45 | A pixel in both the request and the image lies in the request cut to the image |
| TileCache.CellBounds | Modules/Visualization/Ice/include/otbNonOptGlImageActor.h:44-45 | A cell index at most the last pixel's cell starts at or before that last pixel, and one at least the first pixel's cell ends after that first pixel, so every cell between the two overlaps the span |
| TileCache.WalkedCellMeetsView | Modules/Visualization/Ice/include/otbNonOptGlImageActor.h:44-45 | Every cell of the walk over a view inside the image has a cut, and that cut overlaps the view |
| TileCache.KeptAll | Modules/Visualization/Ice/include/otbNonOptGlImageActor.h:159-160 | Cleaning a list whose every tile is still needed keeps the whole list and drops nothing |
| TileCache.ClearStaysWellKept | Modules/Visualization/Ice/include/otbNonOptGlImageActor.h:162-163 | Giving back the texture of every held tile and emptying the list preserves the tile-list invariant |
| TileCache.NonOptGlImageActor.constructor | Modules/Visualization/Ice/include/otbNonOptGlImageActor.h:180-207 | The actor opens with no tile loaded, no texture handed out or given back, modification time 0, the first listed resolution level and the given settings, and its invariant holds |
| TileCache.NonOptGlImageActor.LoadTile | Modules/Visualization/Ice/include/otbNonOptGlImageActor.h:153-154 | The tile comes back loaded, under a texture name never used before, carrying the actor's current display settings |
| TileCache.NonOptGlImageActor.UnloadTile | Modules/Visualization/Ice/include/otbNonOptGlImageActor.h:156-157 | A loaded tile gives its texture back and becomes unloaded with texture 0; an unloaded tile is left as is |
| TileCache.NonOptGlImageActor.TileAlreadyLoaded | Modules/Visualization/Ice/include/otbNonOptGlImageActor.h:165-166 | True exactly when some held tile has the same image region and resolution |
| TileCache.NonOptGlImageActor.CleanLoadedTiles | Modules/Visualization/Ice/include/otbNonOptGlImageActor.h:159-160 | The tile list becomes its needed tiles in their old order; the textures of all the others are given back, in order; the invariant holds |
| TileCache.NonOptGlImageActor.UnloadUnneeded | Modules/Visualization/Ice/include/otbNonOptGlImageActor.h:156-160 | The tile loop of the clean-up: returns the needed tiles and unloads each other tile once |
| TileCache.NonOptGlImageActor.ClearLoadedTiles | Modules/Visualization/Ice/include/otbNonOptGlImageActor.h:162-163 | Every held tile gives its texture back, in order, and the list becomes empty; the invariant holds |
| TileCache.NonOptGlImageActor.UnloadAll | Modules/Visualization/Ice/include/otbNonOptGlImageActor.h:156-163 | The tile loop of ClearLoadedTiles: every (loaded) tile gives its texture back once, in list order |
| TileCache.NonOptGlImageActor.UpdateResolution | Modules/Visualization/Ice/include/otbNonOptGlImageActor.h:174 | The current factor becomes the available one nearest the wanted factor, the first such on a tie |
| TileCache.NonOptGlImageActor.RequestTile | Modules/Visualization/Ice/include/otbNonOptGlImageActor.h:44-45 | One grid cell: when its tile is held already nothing changes; otherwise exactly one loaded tile is appended; afterwards the cell is held and the old list is a prefix of the new one |
| TileCache.NonOptGlImageActor.LoadGridRow | Modules/Visualization/Ice/include/otbNonOptGlImageActor.h:44-45 | After walking one row of cells left to right, each of them is outside the image or held at the current resolution; the old list is a prefix of the new one; every appended tile is at the current resolution, carries the actor's current display settings, overlaps the view and is the cut of one of that row's cells, and the appended tiles come in strictly increasing column order; nothing is appended when the row was held already |
| TileCache.NonOptGlImageActor.LoadGrid | Modules/Visualization/Ice/include/otbNonOptGlImageActor.h:44-45 | After the row-major walk over the view, every cell between its first and last pixel is outside the image or held at the current resolution; the old list is a prefix of the new one; every appended tile is at the current resolution, carries the current display settings, overlaps the view and is the cut of a walked cell; the appended tiles come in row-major order of their cells; nothing is loaded when every cell was held already; an empty view walks no cell |
| TileCache.NonOptGlImageActor.UpdateData | Modules/Visualization/Ice/include/otbNonOptGlImageActor.h:44-45 | Afterwards the current factor is the one nearest the target, every held tile overlaps the request at that factor, every cell of the request's part of the image is held, and every requested pixel of the image lies in a held tile. The new list starts with exactly the old tiles still needed, in order; every tile after them is the cut of a walked cell at the new factor under the current display settings, and those tiles come in row-major order of their cells; the textures of exactly the dropped tiles are given back. A second call with the same target and request changes nothing: no tile is loaded or unloaded and the factor stays |
| TileCache.NonOptGlImageActor.UpdateDataFromEmpty | Modules/Visualization/Ice/include/otbNonOptGlImageActor.h:44-45 | On an empty cache, UpdateData leaves tiles with pairwise different keys, in row-major order of their cells, each the cut of a walked cell of the request's part of the image at the chosen factor under the current display settings, and every walked cell held |
| TileCache.DistinctRegions | Modules/Visualization/Ice/include/otbNonOptGlImageActor.h:186 | A tile list whose regions differ pairwise has as many distinct regions as tiles |
| TileCache.ApartAtOneResolution | Modules/Visualization/Ice/include/otbNonOptGlImageActor.h:186 | Held tiles at one resolution, no two sharing a key, have pairwise different regions |
| TileCache.FourTilesForTwoByTwoCells | Modules/Visualization/Ice/include/otbNonOptGlImageActor.h:44-45 | For a 4096 x 4096 image, tile size 256 and a 512 x 512 request at the origin, what UpdateData leaves in an empty cache is exactly four tiles, whose regions are the 256 x 256 squares at (0,0), (256,0), (0,256) and (256,256) |
| TileCache.FourTilesInRowMajorOrder | Modules/Visualization/Ice/include/otbNonOptGlImageActor.h:44-45 | In that example the four tiles come in exactly this order: (0,0), (256,0), then (0,256), (256,256) |
| TileCache.CornerListInOrder | Modules/Visualization/Ice/include/otbNonOptGlImageActor.h:44-45 | Four tiles in row-major order whose regions are the four corner cells list them row by row |
| TileCache.CornerOrder | Modules/Visualization/Ice/include/otbNonOptGlImageActor.h:44-45 | Four tiles in row-major order, each on a corner cell, are the cells in rank order |
| TileCache.CutInCell | Modules/Visualization/Ice/include/otbNonOptGlImageActor.h:44-45 | The cut of cell (col, row) starts inside that cell, so its cell index is (col, row) again |
| TileCache.OrderColStep | Modules/Visualization/Ice/include/otbNonOptGlImageActor.h:44-45 | One cell of the row walk keeps the row's appended tiles in strictly increasing column order |
| TileCache.OrderRowStep | Modules/Visualization/Ice/include/otbNonOptGlImageActor.h:44-45 | One row of the grid walk keeps all appended tiles in row-major order of their cells |
| TileCache.NonOptGlImageActor.ResolveAndClean | Modules/Visualization/Ice/include/otbNonOptGlImageActor.h:159-174 | The first half of UpdateData: the factor becomes the nearest one, the list becomes exactly the old tiles still needed at that factor, in order, and the textures of the others are given back in order; when the actor was settled for the same target and request, the tiles, the released textures and the factor are unchanged |
| TileCache.NonOptGlImageActor.LoadRequested | Modules/Visualization/Ice/include/otbNonOptGlImageActor.h:44-45 | The second half of UpdateData: the old list is a prefix of the new one and every appended tile is the cut of a walked cell of the request's part of the image under the current display settings, in row-major order; every such cell gets held, held tiles stay needed, every requested pixel of the image is covered, and nothing is loaded when every cell was held already |
| TileCache.NonOptGlImageActor.SetUseShader | Modules/Visualization/Ice/include/otbNonOptGlImageActor.h:58-59 | Stores the flag, advances the modification time only on a change, leaves the held tiles alone |
| TileCache.NonOptGlImageActor.UseShaderOn | Modules/Visualization/Ice/include/otbNonOptGlImageActor.h:60 | The same as setting the flag to true |
| TileCache.NonOptGlImageActor.UseShaderOff | Modules/Visualization/Ice/include/otbNonOptGlImageActor.h:60 | The same as setting the flag to false |
| TileCache.NonOptGlImageActor.SetMinRed | Modules/Visualization/Ice/include/otbNonOptGlImageActor.h:62-65 | Round-trips through GetMinRed; touches only that setting; modification time only on a change |
| TileCache.NonOptGlImageActor.SetMinGreen | Modules/Visualization/Ice/include/otbNonOptGlImageActor.h:63-66 | Likewise for the green minimum |
| TileCache.NonOptGlImageActor.SetMinBlue | Modules/Visualization/Ice/include/otbNonOptGlImageActor.h:64-67 | Likewise for the blue minimum |
| TileCache.NonOptGlImageActor.SetMaxRed | Modules/Visualization/Ice/include/otbNonOptGlImageActor.h:69-72 | Likewise for the red maximum |
| TileCache.NonOptGlImageActor.SetMaxGreen | Modules/Visualization/Ice/include/otbNonOptGlImageActor.h:70-73 | Likewise for the green maximum |
| TileCache.NonOptGlImageActor.SetMaxBlue | Modules/Visualization/Ice/include/otbNonOptGlImageActor.h:71-74 | Likewise for the blue maximum |
| TileCache.NonOptGlImageActor.SetRedIdx | Modules/Visualization/Ice/include/otbNonOptGlImageActor.h:76-77 | Likewise for the red channel index |
| TileCache.NonOptGlImageActor.SetGreenIdx | Modules/Visualization/Ice/include/otbNonOptGlImageActor.h:78-79 | Likewise for the green channel index |
| TileCache.NonOptGlImageActor.SetBlueIdx | Modules/Visualization/Ice/include/otbNonOptGlImageActor.h:80-81 | Likewise for the blue channel index |
| TileCache.NonOptGlImageActor.SettingsReachNewTilesOnly | Modules/Visualization/Ice/include/otbNonOptGlImageActor.h:58-81 | For any new red minimum: request a cell and then change the setting; the actor holds the new value, and the cell's tile (held before or loaded by the request) keeps the settings in force when it was loaded |
| Numeric.Trunc | Modules/Learning/Supervised/include/otbLibSVMMachineLearningModel.h:212 | Conversion of a double to int: the whole number between zero and the value that is less than one away from it |
| Functors.Sum | Modules/Filtering/ImageManipulation/test/otbFunctorImageFilter.cxx:33-43 | The value VariadicAdd is meant to return, the sum of its pixels: one pixel sums to itself (see SumAppend and SumDominates for its laws) |
| Functors.SumDominates | Modules/Filtering/ImageManipulation/test/otbFunctorImageFilter.cxx:33-43 | Non-negative pixels sum to a non-negative value no smaller than any of them |
| Functors.SumAppend | Modules/Filtering/ImageManipulation/test/otbFunctorImageFilter.cxx:35-43 | The intended sum of the inputs splits over any concatenation of them |
| Functors.VariadicAddAsWritten | Modules/Filtering/ImageManipulation/test/otbFunctorImageFilter.cxx:35-43 | The int-seeded accumulation equals the true sum when every input is a whole number |
| Functors.TruncWhole | Modules/Filtering/ImageManipulation/test/otbFunctorImageFilter.cxx:41 | One accumulation step loses nothing when the added pixel is a whole number |
| Functors.VariadicAddAsWrittenDropsFractions | Modules/Filtering/ImageManipulation/test/otbFunctorImageFilter.cxx:41 | Two pixels of 0.5 add up to 0, not to 1 |
| Functors.ToVector | Modules/Filtering/ImageManipulation/test/otbFunctorImageFilter.cxx:47-59 | A scalar becomes the one-band vector holding it; a vector is returned unchanged |
| Functors.OutputSize | Modules/Filtering/ImageManipulation/test/otbFunctorImageFilter.cxx:95-98 | The output size of the concatenation is at least every input's band count, and is 0 exactly when every input has no band |
| Functors.FlattenLength | Modules/Filtering/ImageManipulation/test/otbFunctorImageFilter.cxx:84-98 | The concatenation of the inputs has as many bands as OutputSize, the sum of their band counts |
| Functors.ConcatenateVectors | Modules/Filtering/ImageManipulation/test/otbFunctorImageFilter.cxx:61-72 | The result has the old size plus the size of b, keeps the old prefix, and has b's band i at old size + i |
| Functors.ConcatenateAll | Modules/Filtering/ImageManipulation/test/otbFunctorImageFilter.cxx:74-79 | The variadic overload folds left: the result is a followed by each vector in turn |
| Functors.VariadicConcatenate | Modules/Filtering/ImageManipulation/test/otbFunctorImageFilter.cxx:84-98 | The output is every input turned into a vector and concatenated in order; its length is OutputSize of the inputs' band counts |
| Functors.SetSizeDestructive | Modules/Filtering/ImageManipulation/test/otbFunctorImageFilter.cxx:66 | Resizing to a new length discards the old contents; resizing to the same length keeps them |
| Functors.ConcatenateAsWritten | Modules/Filtering/ImageManipulation/test/otbFunctorImageFilter.cxx:61-72 | The concatenation as written has the right length and ends with b |
| Functors.ConcatenateAsWrittenLosesPrefix | Modules/Filtering/ImageManipulation/test/otbFunctorImageFilter.cxx:61-72 | As written, the concatenation differs from a followed by b; for the test's scalar-plus-vector input the scalar is lost |
| Functors.BandExtraction.OutputSize | Modules/Filtering/ImageManipulation/test/otbFunctorImageFilter.cxx:127-130 | The output size is the number of indices operator() visits in its range-for over the set |
| Functors.BandExtractionFromVarargs | Modules/Filtering/ImageManipulation/test/otbFunctorImageFilter.cxx:107-108 | The C varargs constructor keeps only its first index; OutputSize is 1 |
| Functors.BandExtractionFromList | Modules/Filtering/ImageManipulation/test/otbFunctorImageFilter.cxx:105-110 | A constructor taking the whole list holds exactly the listed indices |
| Functors.TestExtractorKeepsFirstIndexOnly | Modules/Filtering/ImageManipulation/test/otbFunctorImageFilter.cxx:107-108 | The test's extractor built from {1,2} holds only index 1, where the list constructor would hold {1,2} |
| Functors.MinExists | Modules/Filtering/ImageManipulation/test/otbFunctorImageFilter.cxx:116 | A non-empty index set has a smallest element, the first one a range-for over the set visits |
| Functors.Least | Modules/Filtering/ImageManipulation/test/otbFunctorImageFilter.cxx:116 | The smallest index of a non-empty set: a member no larger than any other |
| Functors.Ascending | Modules/Filtering/ImageManipulation/test/otbFunctorImageFilter.cxx:116 | The visiting order of a std::set: each element once, strictly increasing |
| Functors.AscendingHead | Modules/Filtering/ImageManipulation/test/otbFunctorImageFilter.cxx:116 | The visit starts with the smallest index and continues with the rest in order |
| Functors.ExtractBands | Modules/Filtering/ImageManipulation/test/otbFunctorImageFilter.cxx:111-130 | The output has OutputSize bands, and band k is the input band at the k-th smallest index |
| Functors.Neighborhood.Center | Modules/Filtering/ImageManipulation/test/otbFunctorImageFilter.cxx:160 | GetCenterValue: the pixel with as many neighbourhood pixels before it as after it |
| Functors.Mean | Modules/Filtering/ImageManipulation/test/otbFunctorImageFilter.cxx:138-151 | The mean times the neighbourhood size equals the neighbourhood sum |
| Functors.MaxInEachChannel | Modules/Filtering/ImageManipulation/test/otbFunctorImageFilter.cxx:156-177 | The output has the centre pixel's band count (OutputSize of it); each band is at least the centre's and every neighbour's value and equals some neighbour's value |
| Functors.NeighborhoodToVector | Modules/Filtering/ImageManipulation/test/otbFunctorImageFilter.cxx:236-245 | The output has one element per neighbour, element idx being the idx-th neighbour |
| SvmModel.LibSvmMachineLearningModel.constructor | Modules/Learning/Supervised/include/otbLibSVMMachineLearningModel.h:253-254 | The model starts from the given parameter record with parameter optimisation switched off (its documented default) and modification time 0 |
| SvmModel.LibSvmMachineLearningModel.SetSVMType | Modules/Learning/Supervised/include/otbLibSVMMachineLearningModel.h:73-91 | Stores the value in its own field only, round-trips through GetSVMType, and advances the modification time exactly when the value changes |
| SvmModel.LibSvmMachineLearningModel.SetKernelType | Modules/Learning/Supervised/include/otbLibSVMMachineLearningModel.h:98-104 | Likewise for the kernel type |
| SvmModel.LibSvmMachineLearningModel.SetPolynomialKernelDegree | Modules/Learning/Supervised/include/otbLibSVMMachineLearningModel.h:107-113 | Likewise for the polynomial degree |
| SvmModel.LibSvmMachineLearningModel.SetKernelGamma | Modules/Learning/Supervised/include/otbLibSVMMachineLearningModel.h:116-122 | Likewise for gamma |
| SvmModel.LibSvmMachineLearningModel.SetKernelCoef0 | Modules/Learning/Supervised/include/otbLibSVMMachineLearningModel.h:125-131 | Likewise for coef0 |
| SvmModel.LibSvmMachineLearningModel.SetC | Modules/Learning/Supervised/include/otbLibSVMMachineLearningModel.h:134-140 | Likewise for C |
| SvmModel.LibSvmMachineLearningModel.SetEpsilon | Modules/Learning/Supervised/include/otbLibSVMMachineLearningModel.h:161-167 | Likewise for epsilon |
| SvmModel.LibSvmMachineLearningModel.SetP | Modules/Learning/Supervised/include/otbLibSVMMachineLearningModel.h:170-176 | Likewise for p |
| SvmModel.LibSvmMachineLearningModel.SetNu | Modules/Learning/Supervised/include/otbLibSVMMachineLearningModel.h:179-185 | Likewise for nu |
| SvmModel.LibSvmMachineLearningModel.SetParameterOptimization | Modules/Learning/Supervised/include/otbLibSVMMachineLearningModel.h:142-143 | Stores the flag, round-trips through GetParameterOptimization, leaves the record alone, modification time only on a change |
| SvmModel.LibSvmMachineLearningModel.DoProbabilityEstimates | Modules/Learning/Supervised/include/otbLibSVMMachineLearningModel.h:146-155 | Stores 1 or 0, round-trips through GetDoProbabilityEstimates, and never advances the modification time |
| SvmModel.LibSvmMachineLearningModel.DoShrinking | Modules/Learning/Supervised/include/otbLibSVMMachineLearningModel.h:190-200 | Stores 1 or 0, round-trips through GetDoShrinking, and always advances the modification time |
| SvmModel.LibSvmMachineLearningModel.SetCacheSize | Modules/Learning/Supervised/include/otbLibSVMMachineLearningModel.h:203-213 | Stores the size as a double, GetCacheSize gives the same int back, and the modification time always advances |
| SvmModel.LibSvmMachineLearningModel.GetCacheSize | Modules/Learning/Supervised/include/otbLibSVMMachineLearningModel.h:210-213 | The stored double truncated toward zero: within one below a non-negative size, within one above a negative one |
| MainWindow.QtMainWindow.constructor | Modules/Wrappers/QtWidget/src/otbWrapperQtWidgetMainWindow.cxx:33-71 | Not running, button disabled and labelled Execute, status "Select parameters", nothing emitted |
| MainWindow.QtMainWindow.OnApplicationReady | Modules/Wrappers/QtWidget/src/otbWrapperQtWidgetMainWindow.cxx:56 | The button's enabled flag follows the ready value, then the ready handler runs |
| MainWindow.QtMainWindow.UpdateMessageAfterApplicationReady | Modules/Wrappers/QtWidget/src/otbWrapperQtWidgetMainWindow.cxx:73-86 | While idle the status becomes "Ready to run" or "Select parameters"; while running it is untouched; nothing else changes |
| MainWindow.QtMainWindow.UpdateMessageAfterExecution | Modules/Wrappers/QtWidget/src/otbWrapperQtWidgetMainWindow.cxx:88-100 | Status "Done" for a status of at least 0, else "Failed!"; the button offers Execute and the window is idle |
| MainWindow.QtMainWindow.ExecuteButtonClicked | Modules/Wrappers/QtWidget/src/otbWrapperQtWidgetMainWindow.cxx:102-117 | Running: status "Cancelling...", Stop emitted, still running. Idle: the view is prepared first, then running, "Running...", button "Cancel", ExecuteAndWriteOutput emitted. Each click emits exactly one of the two signals, last |
| MainWindow.QtMainWindow.Click | Modules/Wrappers/QtWidget/src/otbWrapperQtWidgetMainWindow.cxx:52-55 | A click reaches the handler only while the button is enabled (it starts disabled and follows the ready signal); it has the handler's effect and leaves the button enabled |
| MainWindow.CancelledRun | Modules/Wrappers/QtWidget/src/otbWrapperQtWidgetMainWindow.cxx:73-117 | Worked example, each click on the enabled button: ready, execute, cancel, the application turning not-ready, then execution ending with an error leaves the window idle with "Failed!", the Execute label, the button disabled, and exactly the events BeforeExecuteButtonClicked, ExecuteAndWriteOutput, Stop |

## Left out

- The actor's `.cxx` is not part of this model, so only its declarations, member types and comments are modelled.
  - There, `CleanLoadedTiles` and `UpdateData` read the requested region from the view settings. The model takes the region, and the target resolution factor of `UpdateResolution`, as parameters.
  - The viewport-to-image mapping is left out: `ProcessViewSettings`, `UpdateTransforms`, `ImageRegionToViewportQuad`, `ViewportExtentToImageRegion`, `ImageRegionToViewportExtent` and the `GenericRSTransform` behind them. Tile corners are carried but never computed.
  - The tile-grid walk of `UpdateData` (the cells from the first pixel of the requested region to its end, cut to the largest region) is the common tiling scheme. The file does not spell it out.
  - What a tile still needs in order to stay held is taken to be this: it overlaps the requested region, at the current resolution.
  - The model walks the cells row by row, left to right, as the usual tiling loop does. Its contracts state that new tiles join the list in row-major order of their cells. The walk covers the request cut to the largest region, from the cell of its first pixel to the cell of its last pixel. An empty request walks no cell.
  - `UpdateData` in the model cleans first and then loads. A design that loads what the view needs first and evicts afterwards would hold both sets for a moment; the model does not capture that intermediate state, only the state after the call.
  - `LoadTile` always succeeds in the model, and the invariant requires every held tile to be loaded. A tile whose read or upload fails, and that stays unloaded to be retried on a later call, is not modelled.
  - `UpdateResolution` measures nearness as the absolute difference of the factors (`|r - target|`), the first level on a tie. A nearness in scale (such as `|1/r - 1/target|`) can pick another level: for levels 1, 2, 4 and target 3 the factor measure ties 2 and 4 and picks 2, while the scale measure picks 4. The `.cxx` that would settle this is not part of this model.
  - The header declares no residency budget or eviction order, so the model has none.
- TileCache.NonOptGlImageActor.constructor: the actor starts at the first listed resolution level. The header only declares `m_CurrentResolution`, and the `.cxx` that sets it is not part of this model, so this start is a modelling choice.
- GL work is left out: texture upload and release, `Render`, the shaders and their static state. Texture names are plain numbers from a counter, and releases are recorded in a log.
- File reading is left out: `Initialize`, the reader, `MultiChannelExtractROI` and `VectorRescaleIntensityImageFilter`.
- `GetExtent`, `GetOrigin`, `GetSpacing`, `GetWkt`, `GetKwl` and `m_NumberOfComponents` are left out. They are geometry and metadata from the reader.
- The getters (`GetUseShader` to `GetBlueIdx` of the actor, `GetSVMType` to `GetNu`, `GetParameterOptimization`, `GetDoProbabilityEstimates` and `GetDoShrinking` of the SVM model) and `MaxInEachChannelOutputSize` have no contract of their own: each reads one value. The round trip through each getter is stated on its setter, whose row cites the getter's lines too, and the output size of `MaxInEachChannel` is stated on that method.
- `LoadTile` and `UnloadTile` take the tile by reference in the source. In the model the updated tile is returned.
- `ConcatenateVectors` resizes its first argument in place in the source. Resizing reallocates the buffer, so the model returns the grown array instead.
- `unsigned int` and `int` widths are left out: indices, factors, sizes and timestamps are unbounded. This includes the int accumulator of `VariadicConcatenate::OutputSize`, which could overflow only for band counts beyond the int range. Pixel values, stretch bounds and SVM parameters are reals, so float rounding, NaN and infinities are not modelled. Neither is the IEEE behaviour of `Mean`.
- `LibSVMMachineLearningModel` keeps its default parameters in its `.txx`, which is not part of this model. The constructor takes the initial record, and switches parameter optimisation off as the header documents.
  - Training, prediction, `Save`, `Load`, cross-validation, parameter optimisation and `HasProbabilities` call into libsvm and are left out.
- The test file's `Lambda1`, the `scale*p` lambda, and the filter set-up around each functor (`NewFunctorFilter`, `SetVInputs`, `Update`) are left out.
- In `QtMainWindow`, the Qt wiring is left out: `connect`, `setupUi`, the window title, the documentation link, the progress bar and the message label. The view's `BeforeExecuteButtonClicked` and the model's slots appear only as entries in the event log.
- The remaining files of the repository are left out: renderers, layer-stack controller, sensor models, writers and instantiation-only tests.

## Findings

| source | as written | input that shows it | evidently intended | confidence | as-written member | corrected member |
|---|---|---|---|---|---|---|
| Modules/Filtering/ImageManipulation/test/otbFunctorImageFilter.cxx:41 | `std::accumulate(..., 0)` seeds an int, so every partial sum of the double pixels is truncated to int | two pixels of 0.5 give 0 | the sum of the pixels, 1.0 | not executed; medium (follows from the accumulate signature) | Functors.VariadicAddAsWritten, Functors.VariadicAddAsWrittenDropsFractions | Functors.Sum, Functors.SumAppend |
| Modules/Filtering/ImageManipulation/test/otbFunctorImageFilter.cxx:66 | `a.SetSize(n)` calls the legacy overload `VariableLengthVector::SetSize(sz, destroyExistingData = true)`; where that overload reallocates without copying, the bands already in `a` are discarded | the test's scalar-plus-vector concatenation (line 254): the scalar band is lost | `a.SetSize(n, DontShrinkToFit(), KeepOldValues())`: old bands kept, b appended | not executed; low (holds only for an ITK whose legacy `SetSize(sz, true)` drops the old values on a resize; ITK releases that implement that overload with a keep-old-values policy keep the prefix, and the ITK version this file is built against is not part of this model) | Functors.ConcatenateAsWritten, Functors.ConcatenateAsWrittenLosesPrefix | Functors.ConcatenateVectors, Functors.VariadicConcatenate |
| Modules/Filtering/ImageManipulation/test/otbFunctorImageFilter.cxx:107-108 | `unsigned int indices...` is a C varargs ellipsis; `{indices}` holds only the first argument | `extractFunctor{1,2}` (line 267) holds the index set {1} | the index set {1,2} | not executed; high | Functors.BandExtractionFromVarargs, Functors.TestExtractorKeepsFirstIndexOnly | Functors.BandExtractionFromList |
