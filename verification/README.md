# BetterImageViewer: navigation, preload cache and thumbnail scheduler in Dafny

This project models two pieces of BetterImageViewer, a desktop image viewer.
Both are written as pure state transitions, apart from the user-interface
and worker-thread code around them.

1. **Folder navigation and the preload cache** (`src/app.rs`). The viewer
   holds these:
   - the image list of the open folder;
   - the index and path of the image on screen;
   - a cache of decoded images;
   - the set of paths whose decode was requested and not yet answered;
   - the `Load` commands sent to the background decoder, kept as an outbox.

   Opening a file or folder, moving to the next or previous image (both
   wrap around), preloading the two neighbours, pruning the cache to the
   current image and its neighbours, and taking in decoder results are all
   functions over an immutable `Viewer` record (module `App`). The folder
   scan is in module `Folder`. It keeps regular files with one of nine
   image extensions, compared case-insensitively, and sorts them by path.
   The directory listing is an input.

   Module `Decoding` pairs the viewer with its decoder. The decoder answers
   each command once, in order, so the unanswered commands are a suffix of
   the outbox. Its invariant says:
   - at most one request per path is outstanding;
   - the viewer's loading set is exactly the set of paths with an
     outstanding request;
   - no path is both cached and loading;
   - the index and current path agree with the folder.

   Every user action and every delivered result preserves this invariant.
   So the loading indicator always has an answer on its way, and it clears
   once the queue drains.

2. **The thumbnail strip's scheduler and cache** (`src/thumbnail_list.rs`,
   module `Thumbnails`). At most one thumbnail request is in flight. The
   next one goes to the missing thumbnail nearest the current index. A tie
   goes to the lower index. Failed decodes are cached as placeholders, so
   they are not requested again while they stay cached. Above 200 cached
   thumbnails, the furthest are evicted until 100 remain. The eviction loop
   is proved to terminate. It never removes from an empty key list. A
   thumbnail's file name is shortened to 11 characters plus an ellipsis
   when it is longer than 12.

Module `Base` holds `Option`, `Path`, `Position` (Rust's
`Iterator::position`) and the path order. Module `Sorting` is a stable
insertion sort. It stands for the standard library's stable `sort` and
`sort_by`, which give the same output for the same input order.

Modelling notes:
- Paths are strings. Path order is lexicographic by character code. The
  entries of one listing share their parent directory. On them, `Path`'s
  component-wise order reduces to comparing file names, which is
  code-point order.
- `prev_image` and `update_preloads` index the folder at `index - 1` when
  the index is not 0. They stay in bounds exactly when
  `index <= len` (`App.SafeIndex`), so that is their precondition.
  `Decoding.Inv` shows that the app keeps the stronger `index < len`.
- The cache is only bounded right after preloading, where it holds at
  most three images. A decode that finishes after the user has moved on is
  still added to the cache (`src/app.rs:224`). So between two navigations
  the cache can hold more than three images, which a description as "cache
  at most N textures" leaves out. The model follows the code.
- The pan/zoom reset on a freshly loaded image is visible in the model as
  `resetViewOnLoad` changing from true to false.

## Model

| member | source | states |
|---|---|---|
| App.PrevIndex | src/app.rs:100-104 | The previous index is below the length, and stepping forward from it gives back the original index. |
| App.NextIndex | src/app.rs:105 | The next index is below the length, and stepping back from it gives back the original index. |
| App.RequestLoad | src/app.rs:82-88 | A command is sent, and the path joins the loading set, exactly when the path is neither cached nor loading. Afterwards the path is cached or loading. Nothing else changes. |
| App.UpdatePreloads | src/app.rs:90-122 | On an empty folder nothing changes. Otherwise both neighbours end up cached or loading, and loading grows only by the uncached neighbours. The cache keeps exactly its entries for the current path and the two neighbours, with unchanged values, so it holds at most 3 images. The outbox only gains commands for paths that just started loading. Screen fields are untouched. |
| App.LoadFile | src/app.rs:73-80 | The current path becomes the requested one. The error is cleared and the reset flag is set as asked. The path ends up cached or loading, and the cache only shrinks. The viewer is loading exactly when the path was loading or uncached. |
| App.NextImage | src/app.rs:182-192 | On an empty folder nothing changes. Otherwise the index becomes (i+1) mod len, stays below len, and the current path is the image at that index. |
| App.PrevImage | src/app.rs:194-207 | On an empty folder nothing changes. Otherwise index 0 wraps to len-1 and any other index i becomes i-1. The current path is the image at the new index. |
| App.LoadFolder | src/app.rs:124-133 | A folder without images gives the "No images found in the folder." error, no current path, an empty list and no loader activity. Otherwise the list is the folder's sorted images, the index is 0 and the current path is the first image. |
| App.LoadSingle | src/app.rs:134-148 | The opened path is the image at the index. Within its parent's listing, it is at its first position. If the parent has no listing, is unreadable, or does not list the path, the list is just that path at index 0. |
| App.LoadPath | src/app.rs:124-149 | Whenever something is shown, the current path is the image at the index, the error is cleared and a view reset is pending. A directory leaves nothing shown exactly when it holds no images; then the error is "No images found in the folder.", the list is empty and no request is sent. Otherwise the list is the folder's sorted images at index 0. Any other path is shown itself. |
| App.ApplyResult | src/app.rs:213-243 | Either kind of result removes its path from loading. A success caches its image, and an error leaves the cache alone. The error message changes only for an error about the current path, and then becomes that message. A success on the current path records its path and size and performs the pending view reset. Nothing else changes those fields. |
| App.ApplyResults | src/app.rs:213-243 | Draining a batch removes every result's path from loading and adds exactly the successfully decoded paths to the cache. Each such path holds the image of its last success in the batch, and other cache entries are unchanged. The error shown is the message of the last error about the current image, or is unchanged if there was none. The last success for the current image sets the last loaded path and size and performs the view reset; without one they are unchanged. The folder, the index and the outbox are unchanged. |
| App.Start | src/app.rs:58-60 | With no start-up path the viewer is empty. A start-up file becomes the current path. |
| Base.Position | src/app.rs:137 | The result is None exactly when the path is absent. Otherwise it is an index holding the path with no earlier occurrence. |
| Sorting.Sort | src/app.rs:178 | The output is a permutation of the input, ordered by the given total preorder. |
| Folder.IsImage | src/app.rs:157-170 | An entry is an image exactly when it is a regular file whose extension matches one of the nine recognised extensions, ignoring ASCII case. |
| Folder.ImagePaths | src/app.rs:152-176 | A path is kept exactly when some regular-file entry with a recognised, lower-cased extension carries it. |
| Folder.FolderImages | src/app.rs:177-179 | The folder list is sorted by path and is a permutation of the image entries' paths. |
| Folder.FolderImagesMembership | src/app.rs:157-179 | A path is in the folder list exactly when an image entry of the listing carries it. |
| Folder.FolderImagesStrictlyIncreasing | src/app.rs:177-179 | When the listing names each path once, the folder list is strictly increasing. |
| Folder.ExtensionExamples | src/app.rs:157-170 | "JPG" and "Tiff" are accepted, "tif", a directory and a file without an extension are rejected. |
| Decoding.EmptyIsConsistent | src/app.rs:43-56 | The freshly created viewer satisfies the invariant. |
| Decoding.RequestLoadKeepsTracked | src/app.rs:82-88 | A request keeps at most one outstanding command per path, and keeps the loading set equal to the set of queued paths. |
| Decoding.UpdatePreloadsKeepsTracked | src/app.rs:90-122 | Preloading the neighbours and pruning the cache keep that bookkeeping. |
| Decoding.LoadFileKeepsTracked | src/app.rs:73-80 | Showing a file keeps that bookkeeping. |
| Decoding.NextImagePreservesInv | src/app.rs:182-192 | Moving forward keeps the whole invariant. |
| Decoding.PrevImagePreservesInv | src/app.rs:194-207 | Moving back keeps the whole invariant. |
| Decoding.LoadPathPreservesInv | src/app.rs:124-149 | Opening any file or folder keeps the whole invariant, including a folder without images. |
| Decoding.DeliverPreservesInv | src/app.rs:213-243 | Taking in the answer to the oldest request keeps the whole invariant. |
| Decoding.DeliverAll | src/app.rs:213-243 | Delivering a batch one answer at a time gives the viewer that draining the batch gives, and marks the batch's commands answered. |
| Decoding.DeliverBatchPreservesInv | src/app.rs:213 | Draining a batch of answers in arrival order keeps the whole invariant. |
| Decoding.LoadingIsAnswered | src/app.rs:65-71 | The loading indicator (`App.IsLoading`) is on exactly when there is a current image and its request is still queued. |
| Decoding.DrainingEndsLoading | src/app.rs:269-275 | Once every queued request is answered the loading set is empty, and the loading indicator is off. |
| Decoding.NextThenPrev | src/app.rs:182-207 | For an index below the length, going forward and then back restores the index and the current image. |
| Decoding.PrevThenNext | src/app.rs:182-207 | For an index below the length, going back and then forward restores the index and the current image. |
| Thumbnails.FolderPosition | src/thumbnail_list.rs:51-52 | A listed path maps to its first index in the folder, and an unlisted one to 0. |
| Thumbnails.FurthestFirst | src/thumbnail_list.rs:50-58 | The comparison is a total preorder. A path strictly further from the current index never sorts after a nearer one, and equally far paths compare as equal. |
| Thumbnails.DropFurthest | src/thumbnail_list.rs:60-65 | The eviction loop ends with exactly 100 entries (or leaves a smaller cache as it is), having removed a prefix of the sorted keys and kept the rest. It never takes from an empty key list. |
| Thumbnails.EvictedAreFurther | src/thumbnail_list.rs:50-65 | Removing a prefix of the furthest-first key order leaves no kept path further from the current index than an evicted one. |
| Thumbnails.Evict | src/thumbnail_list.rs:45-66 | At most 200 entries are left as they are. More than 200 are cut to exactly 100, keeping original values. Every evicted path is at least as far from the current index as every kept one, where an unlisted path counts as position 0. |
| Thumbnails.NearestMissing | src/thumbnail_list.rs:73-85 | The result is None exactly when every image has a thumbnail. Otherwise it is the missing index nearest the current one, the lowest index winning a tie. |
| Thumbnails.NearestMissingUnique | src/thumbnail_list.rs:77-85 | The nearest missing index, with its tie-break, is unique. |
| Thumbnails.TryLoadNext | src/thumbnail_list.rs:71-93 | Nothing changes while a request is in flight. Otherwise the nearest missing path becomes the in-flight one and exactly one 128-pixel request is sent. If nothing is missing, nothing changes. |
| Thumbnails.UpdateFolder | src/thumbnail_list.rs:40-69 | An empty folder changes nothing. Otherwise the cache is evicted as in Evict. An in-flight request is left alone and nothing is sent. With none in flight, nothing is sent when every image has a thumbnail. Otherwise the nearest missing path becomes the in-flight one, and exactly one 128-pixel request for it is sent. |
| Thumbnails.Received | src/thumbnail_list.rs:102-127 | Every answered path enters the cache, and the last answer for a path decides its entry: an image for a success, a placeholder for a failure. Other entries are unchanged. |
| Thumbnails.ProcessResults | src/thumbnail_list.rs:95-133 | With no answers nothing changes. Otherwise every answered path, failed or not, is cached, and the in-flight request is cleared. The next request goes to the nearest missing path, which is never one just answered, and exactly one 128-pixel request for it is sent. When nothing is missing, nothing is sent. |
| Thumbnails.DisplayName | src/thumbnail_list.rs:348-354 | A name of at most 12 characters is shown as is. A longer one is shown as its first 11 characters and an ellipsis, 12 in all. |
| Thumbnails.DisplayNameIdempotent | src/thumbnail_list.rs:348-354 | Shortening a shown name again changes nothing. |
| Thumbnails.DisplayNameCollision | src/thumbnail_list.rs:348-354 | Two different names look alike only if one was shortened and they share their first 11 characters. |

## Left out

- The decoder threads, their channels and image decoding (`src/image_loader.rs`): requests go to an outbox, and results are inputs. `Decoding` assumes only that answers come in request order, one per request.
- `ThumbnailLoader`, `ThumbnailCommand` and `ThumbnailResult`: the image loader file does not define them. Their shapes come from how `src/thumbnail_list.rs` uses them.
- The thumbnail strip is not used by `src/app.rs`, so the two modules are independent here as well.
- Reading directories, `is_dir` and `is_file`, and splitting off the extension: all of them are inputs. The listing, the file flag and the extension text come from the file system, and so does the choice between directory and file.
- Folder.IsImage: lower-cases ASCII letters only. Rust's `to_lowercase` is full Unicode lower-casing, but no other character lower-cases to a single letter of the nine extensions, so the filter keeps the same files.
- Path equality is string equality. Rust's `Path` equality compares components, which treats `a/b` and `a//b` as equal.
- Evict: the hash map's iteration order is left open as the `order` parameter, which may be any listing of the keys without repeats. The stable sort then fixes which of several equally distant paths are evicted.
- Indices are unbounded integers. The source casts indices to `isize` and starts the nearest-missing search at `usize::MAX`. The model matches that only for indices below 2^63: None stands for the starting value.
- Pan, zoom, the easing animation and the expand and hover animations (`src/view_state.rs`, `src/animation.rs`): they are floating-point numerics.
- Drawing, layout, the file dialog, drag-and-drop, window geometry and configuration saving (`src/config.rs`, `src/main.rs`, `build.rs`): they are toolkit and OS plumbing.
- The arrow-key and A/D dispatch to `next_image` and `prev_image`: it is input plumbing. The two operations themselves are modelled.
- `println!` logging, and the names given to textures.
- Thumbnails.DisplayName: takes the file name as its input. Taking the name from the path with `file_name`, and the lossy conversion of a name that is not valid Unicode, are not modelled.
- Textures are opaque values: `Image(width, height)` for the viewer, `Decoded` or `Placeholder` for thumbnails.
